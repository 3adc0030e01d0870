/**
 * The `waitlist` table of the hosted database, as far as the handler sees
 * it: rows appended by an insert that enforces a unique email column, and
 * a count of all rows.
 */
module RecordStore {
  import opened Wrappers

  /** One row of the table. `name` and `message` are nullable columns. The
      creation timestamp is a column default the handler never sets. */
  datatype Row = Row(name: Option<string>, email: string, message: Option<string>)

  /** An error reported by the database, identified by its SQLSTATE code. */
  datatype StoreError = StoreError(code: string)

  /** SQLSTATE `unique_violation`. */
  const UniqueViolation: string := "23505"

  function Emails(rows: seq<Row>): (es: seq<string>)
    ensures |es| == |rows|
    ensures forall i :: 0 <= i < |rows| ==> es[i] == rows[i].email
  {
    seq(|rows|, i requires 0 <= i < |rows| => rows[i].email)
  }

  /** The unique constraint on the email column. */
  predicate UniqueEmails(rows: seq<Row>) {
    forall i, j :: 0 <= i < j < |rows| ==> rows[i].email != rows[j].email
  }

  /** How many rows hold `email`. */
  function RowsWithEmail(rows: seq<Row>, email: string): nat {
    if rows == [] then 0
    else RowsWithEmail(rows[..|rows| - 1], email) + (if rows[|rows| - 1].email == email then 1 else 0)
  }

  /** Under the unique constraint an address is held by at most one row,
      and by exactly one when it is in the table. */
  lemma {:induction false} UniqueMeansAtMostOne(rows: seq<Row>, email: string)
    requires UniqueEmails(rows)
    ensures RowsWithEmail(rows, email) == if email in Emails(rows) then 1 else 0
  {
    if rows != [] {
      var front := rows[..|rows| - 1];
      assert UniqueEmails(front);
      UniqueMeansAtMostOne(front, email);
      assert Emails(rows) == Emails(front) + [rows[|rows| - 1].email];
      if rows[|rows| - 1].email == email {
        assert email !in Emails(front);
      }
    }
  }

  class WaitlistTable {
    var rows: seq<Row>

    ghost predicate Valid()
      reads this
    {
      UniqueEmails(rows)
    }

    constructor ()
      ensures Valid() && rows == []
    {
      rows := [];
    }

    /** Inserts one row. `fault` stands for a failure the database reports
        for reasons outside this model (lost connection, refused permission);
        without one, an email already in the table is refused with
        `unique_violation` and any other row is appended. */
    method Insert(row: Row, fault: Option<StoreError>) returns (err: Option<StoreError>)
      requires Valid()
      modifies this
      ensures Valid()
      ensures fault.Some? ==> err == fault && rows == old(rows)
      ensures fault.None? && row.email in Emails(old(rows)) ==>
                err == Some(StoreError(UniqueViolation)) && rows == old(rows)
      ensures fault.None? && row.email !in Emails(old(rows)) ==>
                err == None && rows == old(rows) + [row]
    {
      if fault.Some? {
        return fault;
      }
      if row.email in Emails(rows) {
        return Some(StoreError(UniqueViolation));
      }
      rows := rows + [row];
      return None;
    }

    /** The exact row count, or nothing when the count query fails. */
    method Count(fails: bool) returns (count: Option<nat>)
      ensures fails ==> count == None
      ensures !fails ==> count == Some(|rows|)
    {
      if fails {
        return None;
      }
      return Some(|rows|);
    }
  }
}
