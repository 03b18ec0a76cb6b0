/** The MySQL sink: `create_table` and `insert_data` of seekMysql.py.
    Each `<term>_jobs` table has an AUTO_INCREMENT id and a UNIQUE url;
    `insert_data` sends `INSERT … ON DUPLICATE KEY UPDATE` through
    `executemany`, one row after the other. */
module Sink {
  import opened Wrappers
  import opened Records

  /** A row as the table holds it, with the id the server gave it. */
  datatype Stored = Stored(id: nat, row: Row)

  /** The content of one table. Rows with a url are found by it through the
      UNIQUE index; rows whose url is NULL never match that index, so they
      are kept apart, in insertion order. `nextId` is the next
      AUTO_INCREMENT value. */
  datatype TableState = TableState(keyed: map<string, Stored>, unkeyed: seq<Stored>, nextId: nat)

  /** A table just made by `CREATE TABLE`: no rows, ids start at 1. */
  const Empty := TableState(map[], [], 1)

  function RowCount(s: TableState): nat {
    |s.keyed| + |s.unkeyed|
  }

  /** Every keyed row is filed under its own url; unkeyed rows have a
      NULL url. */
  predicate FiledByUrl(s: TableState) {
    && (forall u :: u in s.keyed ==> s.keyed[u].row.url == Some(u))
    && (forall i :: 0 <= i < |s.unkeyed| ==> s.unkeyed[i].row.url == None)
  }

  /** Every id is positive and below the counter. */
  predicate IdsBelowCounter(s: TableState) {
    && 1 <= s.nextId
    && (forall u :: u in s.keyed ==> 1 <= s.keyed[u].id < s.nextId)
    && (forall i :: 0 <= i < |s.unkeyed| ==> 1 <= s.unkeyed[i].id < s.nextId)
  }

  /** No two rows share an id. */
  predicate IdsDistinct(s: TableState) {
    && (forall u, v :: u in s.keyed && v in s.keyed && u != v ==> s.keyed[u].id != s.keyed[v].id)
    && (forall i, j :: 0 <= i < j < |s.unkeyed| ==> s.unkeyed[i].id != s.unkeyed[j].id)
    && (forall u, i :: u in s.keyed && 0 <= i < |s.unkeyed| ==> s.keyed[u].id != s.unkeyed[i].id)
  }

  /** What the table definition guarantees: the AUTO_INCREMENT primary key
      and the UNIQUE url. */
  predicate WellFormed(s: TableState) {
    FiledByUrl(s) && IdsBelowCounter(s) && IdsDistinct(s)
  }

  /** A new table meets them. */
  lemma EmptyWellFormed()
    ensures WellFormed(Empty)
  {
  }

  /** The longest table name MySQL accepts. */
  const MaxIdentifierLength := 64

  /** A character MySQL accepts in an unquoted identifier: an ASCII letter
      or digit, '$', '_', or a character from U+0080 to U+FFFF. */
  predicate IdentifierChar(c: char) {
    || 'a' <= c <= 'z' || 'A' <= c <= 'Z' || '0' <= c <= '9'
    || c == '$' || c == '_'
    || 0x80 <= c as int <= 0xFFFF
  }

  /** A table name that `CREATE TABLE {name}` and `INSERT INTO {name}`
      accept as written (the name is spliced into the SQL text unquoted):
      1 to 64 permitted characters, and not digits only. */
  predicate PlainIdentifier(name: string) {
    && 1 <= |name| <= MaxIdentifierLength
    && (forall i :: 0 <= i < |name| ==> IdentifierChar(name[i]))
    && (exists i :: 0 <= i < |name| && !('0' <= name[i] <= '9'))
  }

  /** One `INSERT … ON DUPLICATE KEY UPDATE` of seekMysql.py:209-217: a row
      whose url is already stored overwrites every column of that row but
      keeps its id; any other row is added under the next id. */
  function Upsert(s: TableState, row: Row): (t: TableState)
    ensures t.keyed.Keys == s.keyed.Keys + (if row.url.Some? then {row.url.value} else {})
    ensures RowCount(t) == RowCount(s) + (if row.url.Some? && row.url.value in s.keyed then 0 else 1)
    ensures s.nextId <= t.nextId
  {
    match row.url
    case None => TableState(s.keyed, s.unkeyed + [Stored(s.nextId, row)], s.nextId + 1)
    case Some(u) =>
      if u in s.keyed then TableState(s.keyed[u := Stored(s.keyed[u].id, row)], s.unkeyed, s.nextId)
      else TableState(s.keyed[u := Stored(s.nextId, row)], s.unkeyed, s.nextId + 1)
  }

  /** The upsert keeps the table definition's guarantees. */
  lemma UpsertPreservesValid(s: TableState, row: Row)
    requires WellFormed(s)
    ensures WellFormed(Upsert(s, row))
  {
    match row.url
    case None =>
      AppendNullKeepsValid(s, row);
      assert Upsert(s, row) == TableState(s.keyed, s.unkeyed + [Stored(s.nextId, row)], s.nextId + 1);
    case Some(u) =>
      if u in s.keyed {
        ReplaceKeepsValid(s, row, u);
        assert Upsert(s, row) == TableState(s.keyed[u := Stored(s.keyed[u].id, row)], s.unkeyed, s.nextId);
      } else {
        AddKeyKeepsValid(s, row, u);
        assert Upsert(s, row) == TableState(s.keyed[u := Stored(s.nextId, row)], s.unkeyed, s.nextId + 1);
      }
  }

  lemma AppendNullKeepsValid(s: TableState, row: Row)
    requires WellFormed(s) && row.url == None
    ensures WellFormed(TableState(s.keyed, s.unkeyed + [Stored(s.nextId, row)], s.nextId + 1))
  {
    var t := TableState(s.keyed, s.unkeyed + [Stored(s.nextId, row)], s.nextId + 1);
    var n := |s.unkeyed|;
    assert forall i :: 0 <= i < n ==> t.unkeyed[i] == s.unkeyed[i];
    assert t.unkeyed[n].id == s.nextId;
    assert IdsBelowCounter(t);
    forall i, j | 0 <= i < j < |t.unkeyed|
      ensures t.unkeyed[i].id != t.unkeyed[j].id
    {
      if j == n {
        assert t.unkeyed[i].id < s.nextId;
      }
    }
  }

  lemma ReplaceKeepsValid(s: TableState, row: Row, u: string)
    requires WellFormed(s) && row.url == Some(u) && u in s.keyed
    ensures WellFormed(TableState(s.keyed[u := Stored(s.keyed[u].id, row)], s.unkeyed, s.nextId))
  {
    var keyed := s.keyed[u := Stored(s.keyed[u].id, row)];
    var t := TableState(keyed, s.unkeyed, s.nextId);
    assert forall v :: v in keyed ==> keyed[v].id == s.keyed[v].id;
    assert FiledByUrl(t) by {
      forall v | v in keyed
        ensures keyed[v].row.url == Some(v)
      {
      }
    }
    assert IdsBelowCounter(t);
    assert IdsDistinct(t);
  }

  lemma AddKeyKeepsValid(s: TableState, row: Row, u: string)
    requires WellFormed(s) && row.url == Some(u) && u !in s.keyed
    ensures WellFormed(TableState(s.keyed[u := Stored(s.nextId, row)], s.unkeyed, s.nextId + 1))
  {
    var keyed := s.keyed[u := Stored(s.nextId, row)];
    var t := TableState(keyed, s.unkeyed, s.nextId + 1);
    assert FiledByUrl(t) by {
      forall v | v in keyed
        ensures keyed[v].row.url == Some(v)
      {
      }
    }
    assert IdsBelowCounter(t) by {
      forall v | v in keyed
        ensures 1 <= keyed[v].id < t.nextId
      {
      }
    }
    assert IdsDistinct(t) by {
      forall v, w | v in keyed && w in keyed && v != w
        ensures keyed[v].id != keyed[w].id
      {
        if v == u {
          assert keyed[w] == s.keyed[w];
        } else if w == u {
          assert keyed[v] == s.keyed[v];
        }
      }
      forall v, i | v in keyed && 0 <= i < |t.unkeyed|
        ensures keyed[v].id != t.unkeyed[i].id
      {
        if v == u {
          assert t.unkeyed[i].id < s.nextId;
        }
      }
    }
  }

  /** A row with a url not yet stored adds exactly one row, under the next
      id, and touches no other row. */
  lemma UpsertNewUrl(s: TableState, row: Row)
    requires row.url.Some? && row.url.value !in s.keyed
    ensures var t := Upsert(s, row);
      && RowCount(t) == RowCount(s) + 1
      && t.keyed[row.url.value] == Stored(s.nextId, row)
      && t.nextId == s.nextId + 1
      && t.unkeyed == s.unkeyed
      && (forall v :: v in s.keyed ==> v in t.keyed && t.keyed[v] == s.keyed[v])
  {
  }

  /** A row whose url is stored leaves the row count and the counter alone,
      keeps that row's id and url and takes every other column from the new
      row; no other row changes. */
  lemma UpsertExistingUrl(s: TableState, row: Row)
    requires WellFormed(s)
    requires row.url.Some? && row.url.value in s.keyed
    ensures var u := row.url.value; var t := Upsert(s, row);
      && RowCount(t) == RowCount(s)
      && t.nextId == s.nextId
      && t.keyed[u].id == s.keyed[u].id
      && t.keyed[u].row.url == s.keyed[u].row.url
      && t.keyed[u].row == row
      && t.unkeyed == s.unkeyed
      && (forall v :: v in s.keyed && v != u ==> v in t.keyed && t.keyed[v] == s.keyed[v])
  {
  }

  /** A row with a NULL url never collides: it is always added. */
  lemma UpsertNullUrl(s: TableState, row: Row)
    requires row.url == None
    ensures var t := Upsert(s, row);
      && RowCount(t) == RowCount(s) + 1
      && t.keyed == s.keyed
      && t.unkeyed == s.unkeyed + [Stored(s.nextId, row)]
  {
  }

  /** The urls present in a batch. */
  function UrlValues(rows: seq<Row>): set<string> {
    if rows == [] then {}
    else UrlValues(rows[..|rows| - 1]) + (match rows[|rows| - 1].url case Some(u) => {u} case None => {})
  }

  lemma {:induction false} UrlValuesMembers(rows: seq<Row>)
    ensures forall u :: u in UrlValues(rows) <==> exists i :: 0 <= i < |rows| && rows[i].url == Some(u)
  {
    if rows != [] {
      var init := rows[..|rows| - 1];
      UrlValuesMembers(init);
      forall u | u in UrlValues(rows)
        ensures exists i :: 0 <= i < |rows| && rows[i].url == Some(u)
      {
        if u in UrlValues(init) {
          var i :| 0 <= i < |init| && init[i].url == Some(u);
          assert rows[i] == init[i];
        } else {
          assert rows[|rows| - 1].url == Some(u);
        }
      }
      forall u, i | 0 <= i < |rows| && rows[i].url == Some(u)
        ensures u in UrlValues(rows)
      {
        if i < |init| {
          assert init[i] == rows[i];
        }
      }
    }
  }

  /** The rows of a batch whose url is NULL, in order. */
  function NullRows(rows: seq<Row>): (r: seq<Row>)
    ensures |r| <= |rows|
    ensures forall i :: 0 <= i < |r| ==> r[i].url == None
  {
    if rows == [] then []
    else NullRows(rows[..|rows| - 1]) + (if rows[|rows| - 1].url == None then [rows[|rows| - 1]] else [])
  }

  /** The last row of a batch filed under url `u`: the one the table keeps. */
  function LastWith(rows: seq<Row>, u: string): (r: Row)
    requires u in UrlValues(rows)
    ensures r in rows && r.url == Some(u)
  {
    var last := rows[|rows| - 1];
    if last.url == Some(u) then last else LastWith(rows[..|rows| - 1], u)
  }

  /** `cursor.executemany(insert_query, data)`: the upsert applied to each
      row in turn (seekMysql.py:219). */
  function UpsertAll(s: TableState, rows: seq<Row>): (t: TableState)
    ensures t.keyed.Keys == s.keyed.Keys + UrlValues(rows)
    ensures s.nextId <= t.nextId
  {
    if rows == [] then s
    else Upsert(UpsertAll(s, rows[..|rows| - 1]), rows[|rows| - 1])
  }

  /** A batch keeps the table definition's guarantees. */
  lemma {:induction false} UpsertAllPreservesValid(s: TableState, rows: seq<Row>)
    requires WellFormed(s)
    ensures WellFormed(UpsertAll(s, rows))
  {
    if rows != [] {
      UpsertAllPreservesValid(s, rows[..|rows| - 1]);
      UpsertPreservesValid(UpsertAll(s, rows[..|rows| - 1]), rows[|rows| - 1]);
    }
  }

  /** After a batch, each url it carries holds the batch's last row for
      that url. */
  lemma {:induction false} LastRowWins(s: TableState, rows: seq<Row>)
    ensures forall u :: u in UrlValues(rows) ==> UpsertAll(s, rows).keyed[u].row == LastWith(rows, u)
  {
    if rows != [] {
      LastRowWins(s, rows[..|rows| - 1]);
    }
  }

  /** A url the table held before a batch keeps its id. */
  lemma {:induction false} IdsKept(s: TableState, rows: seq<Row>)
    ensures forall u :: u in s.keyed ==> UpsertAll(s, rows).keyed[u].id == s.keyed[u].id
  {
    if rows != [] {
      IdsKept(s, rows[..|rows| - 1]);
    }
  }

  /** A stored url the batch does not carry keeps its whole row. */
  lemma {:induction false} OthersUntouched(s: TableState, rows: seq<Row>)
    ensures forall u :: u in s.keyed && u !in UrlValues(rows) ==> UpsertAll(s, rows).keyed[u] == s.keyed[u]
  {
    if rows != [] {
      OthersUntouched(s, rows[..|rows| - 1]);
    }
  }

  /** The NULL-url rows of a batch are appended after the old ones, in
      order. */
  lemma {:induction false} NullRowsAppended(s: TableState, rows: seq<Row>)
    ensures var t := UpsertAll(s, rows);
      && |t.unkeyed| == |s.unkeyed| + |NullRows(rows)|
      && t.unkeyed[..|s.unkeyed|] == s.unkeyed
      && (forall i :: 0 <= i < |NullRows(rows)| ==> t.unkeyed[|s.unkeyed| + i].row == NullRows(rows)[i])
  {
    if rows != [] {
      var init, last := rows[..|rows| - 1], rows[|rows| - 1];
      NullRowsAppended(s, init);
      var m := UpsertAll(s, init);
      var t := UpsertAll(s, rows);
      assert t == Upsert(m, last);
      if last.url == None {
        assert NullRows(rows) == NullRows(init) + [last];
        assert t.unkeyed == m.unkeyed + [Stored(m.nextId, last)];
        assert t.unkeyed[..|s.unkeyed|] == s.unkeyed by {
          assert t.unkeyed[..|s.unkeyed|] == m.unkeyed[..|s.unkeyed|];
        }
      } else {
        assert NullRows(rows) == NullRows(init);
        assert t.unkeyed == m.unkeyed;
      }
    }
  }

  /** A batch over urls that are all stored already only rewrites their
      rows: ids, counter and NULL-url rows stay, and each url gets the
      batch's last row for it. */
  function Refreshed(s: TableState, rows: seq<Row>): TableState {
    TableState(
      map u | u in s.keyed :: if u in UrlValues(rows) then Stored(s.keyed[u].id, LastWith(rows, u)) else s.keyed[u],
      s.unkeyed,
      s.nextId)
  }

  lemma {:induction false} RefreshStored(s: TableState, rows: seq<Row>)
    requires forall i :: 0 <= i < |rows| ==> rows[i].url.Some? && rows[i].url.value in s.keyed
    ensures UpsertAll(s, rows) == Refreshed(s, rows)
  {
    if rows != [] {
      var init := rows[..|rows| - 1];
      assert forall i :: 0 <= i < |init| ==> init[i] == rows[i];
      RefreshStored(s, init);
      RefreshStep(s, rows);
    }
  }

  /** The inductive step of `RefreshStored`: upserting the last row of a
      batch into the refresh of the rest gives the refresh of the batch. */
  lemma RefreshStep(s: TableState, rows: seq<Row>)
    requires rows != []
    requires rows[|rows| - 1].url.Some? && rows[|rows| - 1].url.value in s.keyed
    ensures Upsert(Refreshed(s, rows[..|rows| - 1]), rows[|rows| - 1]) == Refreshed(s, rows)
  {
    var init, last := rows[..|rows| - 1], rows[|rows| - 1];
    var w := last.url.value;
    var m := Refreshed(s, init);
    var t := Upsert(m, last);
    var r := Refreshed(s, rows);
    assert UrlValues(rows) == UrlValues(init) + {w};
    assert t.keyed.Keys == r.keyed.Keys;
    forall u | u in r.keyed
      ensures t.keyed[u] == r.keyed[u]
    {
      if u != w {
        assert u in UrlValues(rows) <==> u in UrlValues(init);
      }
    }
    assert t.keyed == r.keyed;
  }

  /** Sending the same batch of rows that all have a url a second time
      leaves the table exactly as the first time left it. */
  lemma BatchTwice(s: TableState, rows: seq<Row>)
    requires forall i :: 0 <= i < |rows| ==> rows[i].url.Some?
    ensures UpsertAll(UpsertAll(s, rows), rows) == UpsertAll(s, rows)
  {
    var t := UpsertAll(s, rows);
    assert forall i :: 0 <= i < |rows| ==> rows[i].url.Some? && rows[i].url.value in t.keyed by {
      UrlValuesMembers(rows);
    }
    RefreshStored(t, rows);
    var r := Refreshed(t, rows);
    assert r.keyed == t.keyed by {
      LastRowWins(s, rows);
      forall u | u in t.keyed
        ensures r.keyed[u] == t.keyed[u]
      {
      }
    }
  }

  /** One `<term>_jobs` table, updated in place. */
  class JobTable {
    var keyed: map<string, Stored>
    var unkeyed: seq<Stored>
    var nextId: nat

    function State(): TableState
      reads this
    {
      TableState(keyed, unkeyed, nextId)
    }

    /** The guarantees of the table definition hold of the content. */
    ghost predicate Valid()
      reads this
    {
      WellFormed(State())
    }

    /** The table `CREATE TABLE` makes. */
    constructor ()
      ensures State() == Empty && Valid()
    {
      keyed := map[];
      unkeyed := [];
      nextId := 1;
    }

    /** One execution of the upsert statement. */
    method Insert(row: Row)
      requires Valid()
      modifies this
      ensures State() == Upsert(old(State()), row) && Valid()
    {
      UpsertPreservesValid(State(), row);
      match row.url {
        case None =>
          unkeyed := unkeyed + [Stored(nextId, row)];
          nextId := nextId + 1;
        case Some(u) =>
          if u in keyed {
            keyed := keyed[u := Stored(keyed[u].id, row)];
          } else {
            keyed := keyed[u := Stored(nextId, row)];
            nextId := nextId + 1;
          }
      }
    }

    /** `executemany`: the statement once per row, in order. */
    method InsertMany(rows: seq<Row>)
      requires Valid()
      modifies this
      ensures State() == UpsertAll(old(State()), rows) && Valid()
    {
      var i := 0;
      while i < |rows|
        invariant 0 <= i <= |rows|
        invariant State() == UpsertAll(old(State()), rows[..i])
        invariant Valid()
      {
        assert rows[..i + 1][..i] == rows[..i];
        Insert(rows[i]);
        i := i + 1;
      }
      assert rows[..|rows|] == rows;
    }
  }

  /** The schema the connection writes into: one table per name. */
  class Database {
    var tables: map<string, JobTable>

    /** Distinct names are distinct tables, every name is one the server
        accepted, and every table keeps its definition's guarantees. */
    ghost predicate Valid()
      reads this, tables.Values
    {
      && (forall a, b :: a in tables && b in tables && a != b ==> tables[a] != tables[b])
      && (forall n :: n in tables ==> PlainIdentifier(n) && tables[n].Valid())
    }

    constructor ()
      ensures Valid() && tables == map[]
    {
      tables := map[];
    }

    /** `CREATE TABLE IF NOT EXISTS` (seekMysql.py:184-204): a name the
        server cannot parse as an unquoted identifier makes the statement
        fail and nothing changes; otherwise a missing table is made empty
        and an existing one is left as it is. */
    method CreateTable(name: string) returns (ok: bool)
      requires Valid()
      modifies this
      ensures Valid()
      ensures ok <==> PlainIdentifier(name)
      ensures !ok ==> tables == old(tables)
      ensures tables.Keys == old(tables.Keys) + (if ok then {name} else {})
      ensures forall n :: n in old(tables) ==> tables[n] == old(tables[n]) && tables[n].State() == old(tables[n].State())
      ensures ok && name !in old(tables) ==> fresh(tables[name]) && tables[name].State() == Empty
    {
      if !PlainIdentifier(name) {
        return false;
      }
      if name !in tables {
        AddTable(name);
      }
      ok := true;
    }

    /** The branch of `CreateTable` that makes a missing table. */
    method AddTable(name: string)
      requires Valid() && PlainIdentifier(name) && name !in tables
      modifies this
      ensures Valid()
      ensures tables.Keys == old(tables.Keys) + {name}
      ensures forall n :: n in old(tables) ==> tables[n] == old(tables[n]) && tables[n].State() == old(tables[n].State())
      ensures fresh(tables[name]) && tables[name].State() == Empty
    {
      var t := new JobTable();
      tables := tables[name := t];
    }

    /** `insert_data` (seekMysql.py:206-223): the batch goes into the named
        table; without that table the statement fails, nothing changes and
        `ok` is false. */
    method InsertData(name: string, rows: seq<Row>) returns (ok: bool)
      requires Valid()
      modifies if name in tables then {tables[name]} else {}
      ensures Valid()
      ensures ok <==> name in tables
      ensures tables == old(tables)
      ensures ok ==> tables[name].State() == UpsertAll(old(tables[name].State()), rows)
      ensures forall n :: n in tables && n != name ==> tables[n].State() == old(tables[n].State())
    {
      if name in tables {
        tables[name].InsertMany(rows);
        ok := true;
      } else {
        ok := false;
      }
    }
  }
}
