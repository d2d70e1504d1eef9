/** The trades table and the one way passes change it: row by row, from a list of rows read earlier. */
module Trades {
  import opened Common

  // Upper-cased; any other text, such as "CANCELED", is Other.
  datatype Status = PENDING | ACTIVE | OPEN | CLOSED | CANCELLED | FAILED | Other(text: string)

  // signalSymbol is the parsed signal's coin and responseSymbol the stored exchange response's symbol without a USDT
  // suffix, "" where there is none; neverExecuted says that the stored response reports a failed execution.
  datatype Row = Row(
    id: int, coinSymbol: string, signalSymbol: string, responseSymbol: string, status: Status, isActive: bool,
    createdAt: Option<int>, closedAt: Option<int>, updatedAt: Option<int>,
    neverExecuted: bool, orderId: string)

  predicate Terminal(s: Status) { s.CLOSED? || s.CANCELLED? || s.FAILED? }

  predicate Open(s: Status) { s.ACTIVE? || s.OPEN? || s.PENDING? }

  /** The symbol derived for a row: its own, else the signal's, else the response's. */
  function SymbolOf(r: Row): string {
    if r.coinSymbol != "" then r.coinSymbol
    else if r.signalSymbol != "" then r.signalSymbol
    else r.responseSymbol
  }

  type Rows = map<int, Row>

  class Table {
    var rows: Rows

    constructor (rows: Rows)
      ensures this.rows == rows
    {
      this.rows := rows;
    }

    /** An update by id; it touches no row when the id is gone. */
    method Update(id: int, row: Row)
      modifies this
      ensures rows == if id in old(rows) then old(rows)[id := row] else old(rows)
    {
      if id in rows {
        rows := rows[id := row];
      }
    }
  }

  // How a pass rewrites a row: from the row as read earlier and the row as it is now.
  type Patch = (Row, Row) -> Row

  function Lookup(snapshot: seq<Row>, id: int): Option<Row> {
    if snapshot == [] then None
    else if snapshot[|snapshot| - 1].id == id then Some(snapshot[|snapshot| - 1])
    else Lookup(snapshot[..|snapshot| - 1], id)
  }

  /** The table after every row of the snapshot was patched. */
  function Rewrite(rows: Rows, snapshot: seq<Row>, patch: Patch): Rows {
    map id | id in rows ::
      match Lookup(snapshot, id) case None => rows[id] case Some(s) => patch(s, rows[id])
  }

  /** Ids are a primary key. */
  ghost predicate Distinct(snapshot: seq<Row>) {
    forall i, j :: 0 <= i < j < |snapshot| ==> snapshot[i].id != snapshot[j].id
  }

  lemma {:induction false} LookupFinds(snapshot: seq<Row>, id: int)
    ensures Lookup(snapshot, id).Some? ==> Lookup(snapshot, id).value in snapshot && Lookup(snapshot, id).value.id == id
    ensures Lookup(snapshot, id).None? ==> forall s :: s in snapshot ==> s.id != id
  {
    if snapshot != [] {
      LookupFinds(snapshot[..|snapshot| - 1], id);
      assert snapshot == snapshot[..|snapshot| - 1] + [snapshot[|snapshot| - 1]];
    }
  }

  lemma LookupRow(snapshot: seq<Row>, s: Row)
    requires Distinct(snapshot) && s in snapshot
    ensures Lookup(snapshot, s.id) == Some(s)
  {
    LookupFinds(snapshot, s.id);
    var i :| 0 <= i < |snapshot| && snapshot[i] == s;
    var j :| 0 <= j < |snapshot| && snapshot[j] == Lookup(snapshot, s.id).value;
  }

  /** A row of the snapshot is patched by its own entry. */
  lemma RewriteRow(rows: Rows, snapshot: seq<Row>, patch: Patch, s: Row)
    requires Distinct(snapshot) && s in snapshot && s.id in rows
    ensures s.id in Rewrite(rows, snapshot, patch) && Rewrite(rows, snapshot, patch)[s.id] == patch(s, rows[s.id])
  {
    LookupRow(snapshot, s);
  }

  lemma {:induction false} LookupFiltered(p: Row -> bool, snapshot: seq<Row>, id: int)
    requires Distinct(snapshot)
    ensures Lookup(Filter(p, snapshot), id) ==
            match Lookup(snapshot, id) case None => None case Some(s) => if p(s) then Some(s) else None
  {
    if snapshot != [] {
      var init, last := snapshot[..|snapshot| - 1], snapshot[|snapshot| - 1];
      LookupFiltered(p, init, id);
      if last.id == id {
        LookupFinds(init, id);
        assert forall s :: s in init ==> s.id != id;
      }
      if p(last) {
        assert (Filter(p, init) + [last])[..|Filter(p, init)|] == Filter(p, init);
      }
    }
  }

  /** One more row, as a loop sees it. */
  lemma RewriteNext(rows: Rows, snapshot: seq<Row>, patch: Patch, i: nat)
    requires Distinct(snapshot) && i < |snapshot|
    ensures
      var before, s := Rewrite(rows, snapshot[..i], patch), snapshot[i];
      && before.Keys == rows.Keys
      && (s.id in rows ==> before[s.id] == rows[s.id])
      && Rewrite(rows, snapshot[..i + 1], patch) ==
           if s.id in rows then before[s.id := patch(s, rows[s.id])] else before
  {
    LookupFinds(snapshot[..i], snapshot[i].id);
    assert snapshot[..i + 1][..i] == snapshot[..i];
  }
}
