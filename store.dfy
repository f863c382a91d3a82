/** The hosted notice table as the components see it: equality lookups that
    expect one row, and the acceptance update keyed by id. Whether a call
    reaches the store is not decided here: each operation takes a flag that
    says whether the transport failed. */
module NoticeStore {
  import opened Notices

  /** The columns the components look rows up by. */
  datatype Column = TokenColumn | HashColumn | IdColumn

  /** The value of a column; a null `acceptance_hash` equals no key. */
  function ColumnValue(n: Notice, c: Column): Option<string> {
    match c
    case TokenColumn => Some(n.token)
    case HashColumn => n.acceptanceHash
    case IdColumn => Some(n.id)
  }

  /** `.eq(column, key)`: the rows whose column holds the key, in table order. */
  function Matching(rows: seq<Notice>, c: Column, key: string): (r: seq<Notice>)
    ensures |r| <= |rows|
    ensures forall n :: n in r ==> n in rows && ColumnValue(n, c) == Some(key)
  {
    Select(rows, (n: Notice) => ColumnValue(n, c) == Some(key))
  }

  /** What a lookup that expects one row gives back. */
  datatype LookupResult =
    | Row(row: Notice)
    | NoSingleRow    // `.single()` on zero or several rows: the PGRST116 error
    | NoRow          // `.maybeSingle()` on zero rows: no error and null data
    | QueryError     // any other error, among them a failed transport

  /** `.eq(column, key).single()`: the one matching row, or PGRST116 when
      there is not exactly one. */
  function Single(rows: seq<Notice>, c: Column, key: string, transportFails: bool): (r: LookupResult)
    ensures r.Row? <==> !transportFails && |Matching(rows, c, key)| == 1
    ensures r.Row? ==> r.row in rows && ColumnValue(r.row, c) == Some(key)
    ensures r.NoSingleRow? <==> !transportFails && |Matching(rows, c, key)| != 1
    ensures !r.NoRow?
  {
    var found := Matching(rows, c, key);
    if transportFails then QueryError
    else if |found| == 1 then Row(found[0])
    else NoSingleRow
  }

  /** `.eq(column, key).maybeSingle()`: the one matching row, null data for
      no row, and an error for several. */
  function MaybeSingle(rows: seq<Notice>, c: Column, key: string, transportFails: bool): (r: LookupResult)
    ensures r.Row? <==> !transportFails && |Matching(rows, c, key)| == 1
    ensures r.Row? ==> r.row in rows && ColumnValue(r.row, c) == Some(key)
    ensures r.NoRow? <==> !transportFails && |Matching(rows, c, key)| == 0
    ensures r.QueryError? <==> transportFails || |Matching(rows, c, key)| > 1
  {
    var found := Matching(rows, c, key);
    if transportFails then QueryError
    else if |found| == 1 then Row(found[0])
    else if |found| == 0 then NoRow
    else QueryError
  }

  // ---------------------------------------------------------------------------
  // The acceptance update

  /** The values the acceptance writes besides `accepted = true`. */
  datatype AcceptancePatch = AcceptancePatch(acceptedAt: string, hash: string, ip: string)

  /** One row after the acceptance update: accepted, with the patch's time,
      hash and address, every other column as it was. An earlier acceptance is
      overwritten: the update carries no "not yet accepted" condition. */
  function Accept(n: Notice, p: AcceptancePatch): (r: Notice)
    ensures IsAccepted(r)
    ensures r.acceptedAt == Some(p.acceptedAt) && r.acceptanceHash == Some(p.hash) && r.acceptanceIp == Some(p.ip)
    ensures r.(accepted := n.accepted, acceptedAt := n.acceptedAt,
               acceptanceHash := n.acceptanceHash, acceptanceIp := n.acceptanceIp) == n
  {
    n.(accepted := Some(true), acceptedAt := Some(p.acceptedAt), acceptanceHash := Some(p.hash), acceptanceIp := Some(p.ip))
  }

  /** `.update(patch).eq('id', id)` on the whole table: every row with that id
      is accepted, every other row is left as it is. */
  function ApplyAcceptance(rows: seq<Notice>, id: string, p: AcceptancePatch): (r: seq<Notice>)
    ensures |r| == |rows|
    ensures forall i :: 0 <= i < |rows| ==> r[i] == if rows[i].id == id then Accept(rows[i], p) else rows[i]
  {
    seq(|rows|, i requires 0 <= i < |rows| => if rows[i].id == id then Accept(rows[i], p) else rows[i])
  }

  /** The update leaves every token as it was, so a lookup by token finds the
      same number of rows afterwards; when it found exactly the row with the
      updated id, it now finds that row accepted. */
  lemma {:induction false} AcceptanceKeepsTokenLookup(rows: seq<Notice>, id: string, p: AcceptancePatch, key: string)
    ensures |Matching(ApplyAcceptance(rows, id, p), TokenColumn, key)| == |Matching(rows, TokenColumn, key)|
    ensures forall n :: Matching(rows, TokenColumn, key) == [n] && n.id == id ==>
              Matching(ApplyAcceptance(rows, id, p), TokenColumn, key) == [Accept(n, p)]
  {
    if rows != [] {
      AcceptanceKeepsTokenLookup(rows[1..], id, p, key);
      TokenLookupStep(rows, id, p, key);
    }
  }

  /** The step of the lemma above: the first row keeps its token, and the rest
      of the table is the update of the rest. */
  lemma TokenLookupStep(rows: seq<Notice>, id: string, p: AcceptancePatch, key: string)
    requires rows != []
    requires |Matching(ApplyAcceptance(rows[1..], id, p), TokenColumn, key)| == |Matching(rows[1..], TokenColumn, key)|
    requires forall n :: Matching(rows[1..], TokenColumn, key) == [n] && n.id == id ==>
               Matching(ApplyAcceptance(rows[1..], id, p), TokenColumn, key) == [Accept(n, p)]
    ensures |Matching(ApplyAcceptance(rows, id, p), TokenColumn, key)| == |Matching(rows, TokenColumn, key)|
    ensures forall n :: Matching(rows, TokenColumn, key) == [n] && n.id == id ==>
              Matching(ApplyAcceptance(rows, id, p), TokenColumn, key) == [Accept(n, p)]
  {
    var after := ApplyAcceptance(rows, id, p);
    assert after[1..] == ApplyAcceptance(rows[1..], id, p);
    var f := (n: Notice) => ColumnValue(n, TokenColumn) == Some(key);
    assert Matching(rows, TokenColumn, key) == (if f(rows[0]) then [rows[0]] else []) + Matching(rows[1..], TokenColumn, key);
    assert Matching(after, TokenColumn, key) == (if f(after[0]) then [after[0]] else []) + Matching(after[1..], TokenColumn, key);
    forall n | Matching(rows, TokenColumn, key) == [n] && n.id == id
      ensures Matching(after, TokenColumn, key) == [Accept(n, p)]
    {
      if f(rows[0]) {
        assert Matching(rows[1..], TokenColumn, key) == [];
        assert n == rows[0];
      } else {
        assert Matching(rows[1..], TokenColumn, key) == [n];
      }
    }
  }

  /** The notice table: its rows, changed in place by the insert of a new
      notice and by the acceptance update. */
  class NoticeTable {
    var rows: seq<Notice>

    constructor (initial: seq<Notice>)
      ensures rows == initial
    {
      rows := initial;
    }

    /** The acceptance update; `fails` says whether the store reported an
        error, in which case no row changes. */
    method UpdateAcceptance(id: string, p: AcceptancePatch, fails: bool) returns (ok: bool)
      modifies this
      ensures ok == !fails
      ensures ok ==> rows == ApplyAcceptance(old(rows), id, p)
      ensures !ok ==> rows == old(rows)
    {
      if fails {
        ok := false;
      } else {
        rows := ApplyAcceptance(rows, id, p);
        ok := true;
      }
    }

    /** `.insert(row).select().single()`: the new row is added and read back;
        `fails` says whether the store reported an error, in which case the
        table is left as it was. */
    method Insert(n: Notice, fails: bool) returns (ok: bool)
      modifies this
      ensures ok == !fails
      ensures ok ==> rows == old(rows) + [n]
      ensures !ok ==> rows == old(rows)
    {
      if fails {
        ok := false;
      } else {
        rows := rows + [n];
        ok := true;
      }
    }
  }
}
