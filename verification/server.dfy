/**
  The upload route's decision and commit (server.js:23-88), the reset route
  (server.js:105-115) and the audit-log name (server.js:72-73). The user list
  is a plain value: each operation takes the list it read and yields the list
  it would write.
 */
module Server {
  import opened Options
  import opened Ingest

  /** What reached the route: no file part, a CSV the decoder turned into rows, or one it failed on. */
  datatype Upload = NoFile | Decoded(rows: seq<Row>) | Undecodable

  datatype Response =
    | BadRequest                                  // 400, no file uploaded
    | InternalError                               // 500, a stored user has no email cell
    | ParseError                                  // 500, the CSV stream reported an error
    | Conflict(duplicates: set<string>)           // 409, duplicate emails found
    | Onboarded(users: seq<Row>, logFile: string) // 200, users appended and logged

  /** The audit file written after a successful upload: its path and its content. */
  datatype AuditLog = AuditLog(path: string, users: seq<Row>)

  /** The response, the user list as persisted afterwards, and the audit file written, if any. */
  datatype Outcome = Outcome(response: Response, users: seq<Row>, log: Option<AuditLog>)

  // ---------------------------------------------------------------------------
  // The audit-log name (server.js:72-73)
  // ---------------------------------------------------------------------------

  /** `replace(/[:.]/g, '-')` on the ISO timestamp. */
  function SanitizeTimestamp(ts: string): (r: string)
    ensures |r| == |ts|
    ensures forall i :: 0 <= i < |ts| && (ts[i] == ':' || ts[i] == '.') ==> r[i] == '-'
    ensures forall i :: 0 <= i < |ts| && ts[i] != ':' && ts[i] != '.' ==> r[i] == ts[i]
    ensures forall i :: 0 <= i < |r| ==> r[i] != ':' && r[i] != '.'
  {
    if ts == [] then []
    else [if ts[0] == ':' || ts[0] == '.' then '-' else ts[0]] + SanitizeTimestamp(ts[1..])
  }

  /** Sanitizing twice is sanitizing once: a sanitized name has nothing left to replace. */
  lemma SanitizeIdempotent(ts: string)
    ensures SanitizeTimestamp(SanitizeTimestamp(ts)) == SanitizeTimestamp(ts)
  {
  }

  const LogPrefix: string := "logs/onboarded_users_"
  const LogExtension: string := ".json"

  function LogFile(now: string): string {
    LogPrefix + SanitizeTimestamp(now) + LogExtension
  }

  /**
    The audit file lives under `logs/`, is named after the clock reading with
    every `:` and `.` turned into `-`, and ends in `.json`; so the extension's
    dot is the only dot after the prefix.
   */
  lemma LogFileSpec(now: string)
    ensures |LogFile(now)| == |LogPrefix| + |now| + |LogExtension|
    ensures LogFile(now)[..|LogPrefix|] == LogPrefix
    ensures LogFile(now)[|LogPrefix| + |now|..] == LogExtension
    ensures forall k :: 0 <= k < |now| ==>
              LogFile(now)[|LogPrefix| + k] == (if now[k] == ':' || now[k] == '.' then '-' else now[k])
    ensures forall k :: |LogPrefix| <= k < |LogPrefix| + |now| ==> LogFile(now)[k] != '.'
  {
  }

  // ---------------------------------------------------------------------------
  // The upload route (server.js:23-88)
  // ---------------------------------------------------------------------------

  /**
    One upload against the user list `users`, with `now` the clock reading.
    Nothing is written unless the whole batch is free of stored emails; then the
    kept rows are appended in order and logged under the sanitized timestamp.
   */
  function HandleUpload(users: seq<Row>, upload: Upload, now: string): (r: Outcome)
    ensures r.response == BadRequest <==> upload.NoFile?
    ensures r.response == InternalError <==> !upload.NoFile? && !AllHaveEmailColumn(users)
    ensures r.response == ParseError <==> upload.Undecodable? && AllHaveEmailColumn(users)
    ensures r.response.Conflict?
        <==> upload.Decoded? && AllHaveEmailColumn(users) && Conflicts(LoweredEmails(users), upload.rows) != {}
    ensures r.response.Onboarded?
        <==> upload.Decoded? && AllHaveEmailColumn(users) && Conflicts(LoweredEmails(users), upload.rows) == {}
    ensures r.response.Conflict? ==>
              && upload.Decoded? && AllHaveEmailColumn(users)
              && r.response.duplicates == Conflicts(LoweredEmails(users), upload.rows)
              && r.response.duplicates != {}
    ensures !r.response.Onboarded? ==> r.users == users && r.log == None
    ensures r.response.Onboarded? ==>
              && AllHaveEmailColumn(users)
              && r.response.users == Accepted(LoweredEmails(users), upload.rows)
              && r.users == users + r.response.users
              && |r.users| == |users| + |r.response.users|
              && r.response.logFile == LogFile(now)
              && r.log == Some(AuditLog(r.response.logFile, r.response.users))
  {
    if upload.NoFile? then Outcome(BadRequest, users, None)
    else
      match ExistingEmails(users)
      case None => Outcome(InternalError, users, None)
      case Some(existing) =>
        if upload.Undecodable? then Outcome(ParseError, users, None)
        else
          var scan := Walk(existing, Start, upload.rows);
          WalkMeetsSpec(existing, upload.rows);
          if scan.hasDuplicate then Outcome(Conflict(scan.duplicateEmails), users, None)
          else
            var file := LogFile(now);
            Outcome(Onboarded(scan.results, file), users + scan.results, Some(AuditLog(file, scan.results)))
  }

  /** Every stored user has a non-empty email cell. */
  predicate EveryUserHasEmail(users: seq<Row>) {
    forall u :: u in users ==> !Skipped(u)
  }

  /**
    Uploads only ever append rows that have an email, so a list built by
    uploads keeps that property and never makes the route fail on it.
   */
  lemma UploadKeepsEveryUserEmailed(users: seq<Row>, upload: Upload, now: string)
    requires EveryUserHasEmail(users)
    ensures EveryUserHasEmail(HandleUpload(users, upload, now).users)
    ensures HandleUpload(users, upload, now).response != InternalError
  {
    var r := HandleUpload(users, upload, now);
    if r.response.Onboarded? {
      forall u | u in r.users
        ensures !Skipped(u)
      {
        if u !in users {
          AcceptedMembership(LoweredEmails(users), upload.rows, u);
        }
      }
    }
  }

  // ---------------------------------------------------------------------------
  // The reset route (server.js:105-115)
  // ---------------------------------------------------------------------------

  function Reset(users: seq<Row>): seq<Row> {
    []
  }

  /**
    Reset leaves an empty list whatever it starts from, so resetting again
    changes nothing, and the next upload clashes with nothing: it keeps every
    row that has an email.
   */
  lemma ResetSpec(users: seq<Row>, rows: seq<Row>, now: string)
    ensures Reset(users) == [] && Reset(Reset(users)) == Reset(users)
    ensures HandleUpload(Reset(users), Decoded(rows), now).response == Onboarded(Accepted({}, rows), LogFile(now))
    ensures HandleUpload(Reset(users), Decoded(rows), now).users == Accepted({}, rows)
  {
  }
}
