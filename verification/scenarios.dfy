/**
  Whole-route consequences of the upload model: the case-insensitive match
  against stored users, original casing kept on storage, and the two ways a
  stored list can end up holding the same comparison key twice.
 */
module Scenarios {
  import opened Options
  import opened Text
  import opened CsvFormat
  import opened Ingest
  import opened Server

  /** The first upload into an empty list stores the row exactly as it arrived, casing included. */
  lemma FirstUploadKeepsOriginalCasing(now: string)
    ensures var jane := map["Employee Id" := "HAYHAH1234", "First Name" := "Jane",
                            "Last Name" := "Doe", "Email Address" := "Jane.Doe@yopmail.com"];
            var r := HandleUpload([], Decoded([jane]), now);
            && r.response == Onboarded([jane], LogFile(now))
            && r.users == [jane]
            && r.users[0][EmailColumn] == "Jane.Doe@yopmail.com"
  {
  }

  /**
    An incoming email that differs from a stored one only in case (and in
    surrounding blanks) is rejected, and the conflict is reported as the
    stored, lower-cased form; nothing is written.
   */
  lemma CaseOnlyDifferenceIsRejected(stored: Row, incoming: Row, now: string)
    requires EmailColumn in stored && !Skipped(incoming)
    requires Normalize(incoming[EmailColumn]) == Lower(stored[EmailColumn])
    ensures HandleUpload([stored], Decoded([incoming]), now)
         == Outcome(Conflict({Lower(stored[EmailColumn])}), [stored], None)
  {
  }

  /**
    Two rows with the same new email in one upload are both stored, so the
    stored list can hold a comparison key twice.
   */
  lemma SameNewEmailStoredTwice(users: seq<Row>, r1: Row, r2: Row, now: string)
    requires AllHaveEmailColumn(users) && !Skipped(r1) && !Skipped(r2)
    requires Normalize(r1[EmailColumn]) == Normalize(r2[EmailColumn])
    requires Normalize(r1[EmailColumn]) !in LoweredEmails(users)
    ensures HandleUpload(users, Decoded([r1, r2]), now).users == users + [r1, r2]
  {
    var existing := LoweredEmails(users);
    RepeatedNewEmailBothAccepted(existing, r1, r2);
    WalkMeetsSpec(existing, [r1, r2]);
  }

  /**
    A stored email with a trailing blank is compared untrimmed, so the same
    address uploaded again without the blank is accepted: afterwards both rows
    are stored and both have the comparison key "a".
   */
  lemma UntrimmedStoredEmailAdmitsTwin(now: string)
    ensures var stored := map[EmailColumn := "a "];
            var twin := map[EmailColumn := "a"];
            var r := HandleUpload([stored], Decoded([twin]), now);
            && r.response.Onboarded?
            && r.users == [stored, twin]
            && Normalize(stored[EmailColumn]) == Normalize(twin[EmailColumn]) == "a"
  {
    var stored := map[EmailColumn := "a "];
    var twin := map[EmailColumn := "a"];
    assert stored[EmailColumn] == "a ";
    assert Lower("a") == "a";
    assert Trim("a") == "a";
    assert TrimStart("a ") == "a ";
    assert TrimEnd("a ") == TrimEnd("a");
    assert Trim("a ") == "a";
    UntrimmedStoredEmailNeverReported("a ", {Lower("a ")}, [twin]);
    assert LoweredEmails([stored]) == {Lower("a ")};
    assert Accepted({Lower("a ")}, [twin]) == [twin];
    IncomingEmailsCons([twin]);
    assert IncomingEmails([]) == {};
  }
}
