/**
  The validation walk of the upload route (server.js:32-52): the existing
  users' emails are lower-cased into a set once, then every decoded CSV row is
  examined in order, and each row is either skipped, recorded as a conflict or
  kept for the batch.
 */
module Ingest {
  import opened Options
  import opened Text
  import opened CsvFormat

  /** A decoded CSV row, or a stored user: column name to cell text. */
  type Row = map<string, string>

  /** `!emailRaw`: the cell is missing (undefined) or the empty string. */
  predicate Skipped(row: Row) {
    EmailColumn !in row || row[EmailColumn] == ""
  }

  /** The comparison key of an incoming email: trimmed, then lower-cased. */
  function Normalize(raw: string): string {
    Lower(Trim(raw))
  }

  /**
    A key never starts or ends with a blank, is already lower-case, and is
    empty exactly when the raw email is blank-only.
   */
  lemma NormalizeSpec(raw: string)
    ensures |Normalize(raw)| <= |raw|
    ensures |Normalize(raw)| > 0 ==> !IsWhitespace(Normalize(raw)[0]) && !IsWhitespace(Normalize(raw)[|Normalize(raw)| - 1])
    ensures Lower(Normalize(raw)) == Normalize(raw)
    ensures Normalize(raw) == "" <==> AllWhitespace(raw)
  {
    var t := Trim(raw);
    TrimSpec(raw);
    LowerAt(t);
    LowerIdempotent(t);
    if |t| > 0 {
      LowerCharKeepsWhitespace(t[0]);
      LowerCharKeepsWhitespace(t[|t| - 1]);
    }
  }

  /**
    Emails that differ only in the case of their letters have the same key:
    trimming does not depend on case, so it commutes with lower-casing.
   */
  lemma NormalizeIgnoresCase(a: string, b: string)
    requires Lower(a) == Lower(b)
    ensures Normalize(a) == Normalize(b)
  {
    LowerTrim(a);
    LowerTrim(b);
  }

  // ---------------------------------------------------------------------------
  // The set of existing emails (server.js:35)
  // ---------------------------------------------------------------------------

  predicate AllHaveEmailColumn(users: seq<Row>) {
    forall u :: u in users ==> EmailColumn in u
  }

  /** Every stored email, lower-cased but NOT trimmed. */
  function LoweredEmails(users: seq<Row>): set<string>
    requires AllHaveEmailColumn(users)
  {
    set u | u in users :: Lower(u[EmailColumn])
  }

  /**
    The set of every stored email, lower-cased. It fails exactly when some
    stored user has no email cell, because lower-casing a missing value throws.
   */
  function ExistingEmails(users: seq<Row>): (r: Option<set<string>>)
    ensures r.Some? <==> AllHaveEmailColumn(users)
    ensures r.Some? ==> r.value == LoweredEmails(users)
  {
    if users == [] then Some({})
    else if EmailColumn !in users[0] then None
    else
      match ExistingEmails(users[1..])
      case None =>
        assert forall u :: u in users[1..] ==> u in users;
        None
      case Some(rest) =>
        assert forall u :: u in users <==> u == users[0] || u in users[1..];
        Some({Lower(users[0][EmailColumn])} + rest)
  }

  // ---------------------------------------------------------------------------
  // The walk over the decoded rows (server.js:39-52)
  // ---------------------------------------------------------------------------

  /** The three variables the walk updates: `results`, `duplicateEmails`, `hasDuplicate`. */
  datatype Scan = Scan(results: seq<Row>, duplicateEmails: set<string>, hasDuplicate: bool)

  const Start: Scan := Scan([], {}, false)

  /** The `data` callback for one row; `existing` is never changed by it. */
  function OnRow(existing: set<string>, acc: Scan, row: Row): Scan {
    if Skipped(row) then acc
    else
      var email := Normalize(row[EmailColumn]);
      if email in existing then
        acc.(hasDuplicate := true, duplicateEmails := acc.duplicateEmails + {email})
      else
        acc.(results := acc.results + [row])
  }

  /** The stream delivering `rows` one `data` event at a time, in order. */
  function Walk(existing: set<string>, acc: Scan, rows: seq<Row>): Scan
    decreases |rows|
  {
    if rows == [] then acc else Walk(existing, OnRow(existing, acc, rows[0]), rows[1..])
  }

  // ---------------------------------------------------------------------------
  // What the walk computes, stated without the walk
  // ---------------------------------------------------------------------------

  /** A row the batch keeps: it has an email and its key is not already stored. */
  predicate Admitted(existing: set<string>, row: Row) {
    !Skipped(row) && Normalize(row[EmailColumn]) !in existing
  }

  /** The rows of `rows` that are admitted, in their original order and unchanged. */
  function Accepted(existing: set<string>, rows: seq<Row>): seq<Row> {
    if rows == [] then []
    else (if Admitted(existing, rows[0]) then [rows[0]] else []) + Accepted(existing, rows[1..])
  }

  /** The keys of every row that has an email. */
  function IncomingEmails(rows: seq<Row>): set<string> {
    set r | r in rows && !Skipped(r) :: Normalize(r[EmailColumn])
  }

  /** The incoming keys that are already stored. */
  function Conflicts(existing: set<string>, rows: seq<Row>): set<string> {
    IncomingEmails(rows) * existing
  }

  lemma IncomingEmailsCons(rows: seq<Row>)
    requires rows != []
    ensures IncomingEmails(rows)
         == (if Skipped(rows[0]) then {} else {Normalize(rows[0][EmailColumn])}) + IncomingEmails(rows[1..])
  {
  }

  /** The walk from any accumulator appends the admitted rows to `results`. */
  lemma {:induction false} WalkResults(existing: set<string>, acc: Scan, rows: seq<Row>)
    ensures Walk(existing, acc, rows).results == acc.results + Accepted(existing, rows)
    decreases |rows|
  {
    if rows == [] {
      assert acc.results + [] == acc.results;
    } else {
      var next := OnRow(existing, acc, rows[0]);
      WalkResults(existing, next, rows[1..]);
      if Admitted(existing, rows[0]) {
        assert next.results == acc.results + [rows[0]];
        assert Accepted(existing, rows) == [rows[0]] + Accepted(existing, rows[1..]);
      } else {
        assert next.results == acc.results;
        assert Accepted(existing, rows) == Accepted(existing, rows[1..]);
      }
    }
  }

  /** The walk from any accumulator adds the conflicts to `duplicateEmails` and raises the flag for them. */
  lemma {:induction false} WalkDuplicates(existing: set<string>, acc: Scan, rows: seq<Row>)
    ensures Walk(existing, acc, rows).duplicateEmails == acc.duplicateEmails + Conflicts(existing, rows)
    ensures Walk(existing, acc, rows).hasDuplicate == (acc.hasDuplicate || Conflicts(existing, rows) != {})
    decreases |rows|
  {
    if rows == [] {
      assert IncomingEmails(rows) == {};
    } else {
      var row := rows[0];
      var next := OnRow(existing, acc, row);
      WalkDuplicates(existing, next, rows[1..]);
      IncomingEmailsCons(rows);
      if Skipped(row) || Normalize(row[EmailColumn]) !in existing {
        assert next.duplicateEmails == acc.duplicateEmails && next.hasDuplicate == acc.hasDuplicate;
        assert Conflicts(existing, rows) == Conflicts(existing, rows[1..]);
      } else {
        var email := Normalize(row[EmailColumn]);
        assert next.duplicateEmails == acc.duplicateEmails + {email} && next.hasDuplicate;
        assert Conflicts(existing, rows) == {email} + Conflicts(existing, rows[1..]);
      }
    }
  }

  /**
    One `data` event: the row is appended when it is admitted, its key is added
    to the duplicates when it is already stored, and nothing changes for a row
    with no email.
   */
  lemma OnRowMeetsSpec(existing: set<string>, acc: Scan, row: Row)
    ensures OnRow(existing, acc, row).results == acc.results + Accepted(existing, [row])
    ensures OnRow(existing, acc, row).duplicateEmails == acc.duplicateEmails + Conflicts(existing, [row])
    ensures OnRow(existing, acc, row).hasDuplicate == (acc.hasDuplicate || Conflicts(existing, [row]) != {})
  {
  }

  /**
    The stream may deliver the rows in any split: walking `a` and then `b`
    from where it stopped is walking `a + b`.
   */
  lemma {:induction false} WalkAppend(existing: set<string>, acc: Scan, a: seq<Row>, b: seq<Row>)
    ensures Walk(existing, acc, a + b) == Walk(existing, Walk(existing, acc, a), b)
    decreases |a|
  {
    if a == [] {
      assert a + b == b;
    } else {
      assert (a + b)[0] == a[0] && (a + b)[1..] == a[1..] + b;
      WalkAppend(existing, OnRow(existing, acc, a[0]), a[1..], b);
    }
  }

  /**
    The walk keeps exactly the admitted rows in order, reports exactly the
    incoming keys already stored, and raises the flag exactly when it reports one.
   */
  lemma WalkMeetsSpec(existing: set<string>, rows: seq<Row>)
    ensures Walk(existing, Start, rows).results == Accepted(existing, rows)
    ensures Walk(existing, Start, rows).duplicateEmails == Conflicts(existing, rows)
    ensures Walk(existing, Start, rows).hasDuplicate <==> Walk(existing, Start, rows).duplicateEmails != {}
  {
    WalkResults(existing, Start, rows);
    WalkDuplicates(existing, Start, rows);
  }

  // ---------------------------------------------------------------------------
  // Properties of the accepted rows and the conflicts
  // ---------------------------------------------------------------------------

  /** A row is accepted exactly when it is one of the input rows and is admitted. */
  lemma {:induction false} AcceptedMembership(existing: set<string>, rows: seq<Row>, row: Row)
    ensures row in Accepted(existing, rows) <==> row in rows && Admitted(existing, row)
  {
    if rows != [] {
      AcceptedMembership(existing, rows[1..], row);
      assert row in rows <==> row == rows[0] || row in rows[1..];
    }
  }

  /** Acceptance is decided row by row: splitting the input splits the output the same way. */
  lemma {:induction false} AcceptedAppend(existing: set<string>, a: seq<Row>, b: seq<Row>)
    ensures Accepted(existing, a + b) == Accepted(existing, a) + Accepted(existing, b)
  {
    if a != [] {
      assert (a + b)[1..] == a[1..] + b;
      AcceptedAppend(existing, a[1..], b);
    } else {
      assert a + b == b;
    }
  }

  /** When every row is admitted nothing is dropped, repeats included. */
  lemma {:induction false} AcceptedAll(existing: set<string>, rows: seq<Row>)
    requires forall i :: 0 <= i < |rows| ==> Admitted(existing, rows[i])
    ensures Accepted(existing, rows) == rows
  {
    if rows != [] {
      AcceptedAll(existing, rows[1..]);
    }
  }

  lemma IncomingEmailsAppend(a: seq<Row>, b: seq<Row>)
    ensures IncomingEmails(a + b) == IncomingEmails(a) + IncomingEmails(b)
  {
  }

  /**
    A row with no email, wherever it sits in the batch, changes neither the
    accepted rows nor the conflicts.
   */
  lemma SkippedRowContributesNothing(existing: set<string>, a: seq<Row>, row: Row, b: seq<Row>)
    requires Skipped(row)
    ensures Accepted(existing, a + [row] + b) == Accepted(existing, a + b)
    ensures Conflicts(existing, a + [row] + b) == Conflicts(existing, a + b)
  {
    AcceptedAppend(existing, a + [row], b);
    AcceptedAppend(existing, a, [row]);
    AcceptedAppend(existing, a, b);
    assert Accepted(existing, [row]) == [];
    assert Accepted(existing, a) + [] == Accepted(existing, a);
    IncomingEmailsAppend(a + [row], b);
    IncomingEmailsAppend(a, [row]);
    IncomingEmailsAppend(a, b);
    assert IncomingEmails([row]) == {};
  }

  /**
    The existing set is fixed for the whole walk, so a batch that clashes with no
    stored email keeps every row that has an email, however often an email repeats.
   */
  lemma NoConflictKeepsEveryEmailedRow(existing: set<string>, rows: seq<Row>)
    requires Conflicts(existing, rows) == {}
    ensures Accepted(existing, rows) == Accepted({}, rows)
    ensures forall i :: 0 <= i < |rows| && !Skipped(rows[i]) ==> rows[i] in Accepted(existing, rows)
  {
  }

  /**
    Two rows of one batch whose emails have the same new key (whatever their
    other cells, and however the emails differ in case or surrounding blanks)
    are both kept and raise no conflict: rows are never compared with each other.
   */
  lemma RepeatedNewEmailBothAccepted(existing: set<string>, r1: Row, r2: Row)
    requires !Skipped(r1) && !Skipped(r2)
    requires Normalize(r1[EmailColumn]) == Normalize(r2[EmailColumn])
    requires Normalize(r1[EmailColumn]) !in existing
    ensures Walk(existing, Start, [r1, r2]).results == [r1, r2]
    ensures !Walk(existing, Start, [r1, r2]).hasDuplicate
  {
    WalkMeetsSpec(existing, [r1, r2]);
    AcceptedAll(existing, [r1, r2]);
    IncomingEmailsCons([r1, r2]);
    IncomingEmailsCons([r2]);
    assert IncomingEmails([]) == {};
  }

  /**
    Stored emails are lower-cased but not trimmed: one stored with a blank at
    either end never equals the key of an incoming email.
   */
  lemma UntrimmedStoredEmailNeverMatches(stored: string, raw: string)
    requires |stored| > 0 && (IsWhitespace(stored[0]) || IsWhitespace(stored[|stored| - 1]))
    ensures Normalize(raw) != Lower(stored)
  {
    LowerAt(stored);
    LowerCharKeepsWhitespace(stored[0]);
    LowerCharKeepsWhitespace(stored[|stored| - 1]);
    NormalizeSpec(raw);
  }

  /** So such a stored email is never reported as a conflict, whatever the batch. */
  lemma UntrimmedStoredEmailNeverReported(stored: string, existing: set<string>, rows: seq<Row>)
    requires |stored| > 0 && (IsWhitespace(stored[0]) || IsWhitespace(stored[|stored| - 1]))
    ensures Lower(stored) !in Conflicts(existing, rows)
  {
    forall r | r in rows && !Skipped(r)
      ensures Normalize(r[EmailColumn]) != Lower(stored)
    {
      UntrimmedStoredEmailNeverMatches(stored, r[EmailColumn]);
    }
  }

  /** A blank-only email is not skipped (`!"  "` is false); its key is the empty string. */
  lemma BlankEmailIsNotSkipped(existing: set<string>, row: Row)
    requires EmailColumn in row && |row[EmailColumn]| > 0 && AllWhitespace(row[EmailColumn])
    ensures !Skipped(row)
    ensures Normalize(row[EmailColumn]) == ""
    ensures "" !in existing ==> Accepted(existing, [row]) == [row]
  {
    NormalizeSpec(row[EmailColumn]);
  }
}
