/**
 * `formatEmailsAction`: the distinct emails of the rows go to a formatter,
 * and only the rows whose email the formatter gave back are kept.
 */
module Format {
  import opened Wrappers
  import opened Seqs
  import opened Batch

  const NoEmailsError: string := "No emails to format."
  const FormatFailedError: string := "AI formatting failed. Please try again."

  /**
   * The formatting flow, seen from the action: it receives a list of emails
   * and either returns a list of emails or throws (`None`).
   */
  type Formatter = seq<string> -> Option<seq<string>>

  /** `emails.map(e => e.email)` */
  function EmailsOf(rows: seq<Row>): (r: seq<string>)
    ensures |r| == |rows|
    ensures forall k :: 0 <= k < |rows| ==> r[k] == rows[k].email
  {
    if rows == [] then [] else [rows[0].email] + EmailsOf(rows[1..])
  }

  /** `Array.from(new Set(emails.map(e => e.email)))` */
  function UniqueEmails(rows: seq<Row>): (r: seq<string>)
    ensures NoDup(r)
    ensures forall e :: e in r <==> exists k :: 0 <= k < |rows| && rows[k].email == e
  {
    var all := EmailsOf(rows);
    assert forall e :: e in all <==> exists k :: 0 <= k < |rows| && rows[k].email == e by {
      forall e | e in all ensures exists k :: 0 <= k < |rows| && rows[k].email == e {
        var k :| 0 <= k < |all| && all[k] == e;
      }
    }
    Distinct(all)
  }

  /**
   * The formatter receives the emails in order of first occurrence: one more
   * row adds its email at the end when it is new, and nothing otherwise.
   */
  lemma UniqueEmailsSnoc(rows: seq<Row>, row: Row)
    ensures UniqueEmails(rows + [row]) ==
      if row.email in UniqueEmails(rows) then UniqueEmails(rows) else UniqueEmails(rows) + [row.email]
  {
    var all := EmailsOf(rows);
    assert EmailsOf(rows + [row]) == all + [row.email];
    DistinctSnoc(all, row.email);
  }

  /** `emails.filter(e => formattedEmailSet.has(e.email))` */
  function KeepListed(rows: seq<Row>, keep: seq<string>): (r: seq<Row>)
    ensures forall row :: row in r <==> row in rows && row.email in keep
    ensures IsSubsequence(r, rows)
  {
    if rows == [] then []
    else
      var rest := KeepListed(rows[1..], keep);
      if rows[0].email in keep then
        assert ([rows[0]] + rest)[1..] == rest;
        [rows[0]] + rest
      else
        rest
  }

  /** Each row is kept as many times as it occurs, or not at all. */
  lemma {:induction false} KeepListedCount(rows: seq<Row>, keep: seq<string>, row: Row)
    ensures multiset(KeepListed(rows, keep))[row] ==
      if row.email in keep then multiset(rows)[row] else 0
  {
    if rows != [] {
      KeepListedCount(rows[1..], keep, row);
      assert rows == [rows[0]] + rows[1..];
    }
  }

  /** Keeping what the formatter returned a second time changes nothing. */
  lemma {:induction false} KeepListedIdempotent(rows: seq<Row>, keep: seq<string>)
    ensures KeepListed(KeepListed(rows, keep), keep) == KeepListed(rows, keep)
  {
    if rows != [] {
      KeepListedIdempotent(rows[1..], keep);
      var rest := KeepListed(rows[1..], keep);
      if rows[0].email in keep {
        assert ([rows[0]] + rest)[1..] == rest;
      }
    }
  }

  /** When no email is listed, no row is kept. */
  lemma {:induction false} KeepListedNone(rows: seq<Row>)
    ensures KeepListed(rows, []) == []
  {
    if rows != [] {
      KeepListedNone(rows[1..]);
    }
  }

  /** When every email is listed, every row is kept, in place. */
  lemma {:induction false} KeepListedAll(rows: seq<Row>, keep: seq<string>)
    requires forall k :: 0 <= k < |rows| ==> rows[k].email in keep
    ensures KeepListed(rows, keep) == rows
  {
    if rows != [] {
      KeepListedAll(rows[1..], keep);
      assert rows == [rows[0]] + rows[1..];
    }
  }

  /** `formatEmailsAction(emails)` */
  function FormatEmails(rows: seq<Row>, formatter: Formatter): (r: Outcome<seq<Row>>)
    ensures r == Failure(NoEmailsError) <==> rows == []
    ensures r == Failure(FormatFailedError) <==> rows != [] && formatter(UniqueEmails(rows)).None?
    ensures r.Failure? ==> r.error == NoEmailsError || r.error == FormatFailedError
    ensures r.Success? ==>
      && formatter(UniqueEmails(rows)).Some?
      && IsSubsequence(r.value, rows)
      && forall row :: row in r.value <==> row in rows && row.email in formatter(UniqueEmails(rows)).value
  {
    assert NoEmailsError != FormatFailedError by {
      assert NoEmailsError[0] == 'N' && FormatFailedError[0] == 'A';
    }
    if rows == [] then Failure(NoEmailsError)
    else
      match formatter(UniqueEmails(rows))
      case None => Failure(FormatFailedError)
      case Some(formatted) => Success(KeepListed(rows, formatted))
  }

  /** A formatter that hands back every email it was given keeps every row. */
  lemma FormatterKeepingAllKeepsRows(rows: seq<Row>, formatter: Formatter)
    requires rows != []
    requires formatter(UniqueEmails(rows)).Some?
    requires forall e :: e in UniqueEmails(rows) ==> e in formatter(UniqueEmails(rows)).value
    ensures FormatEmails(rows, formatter) == Success(rows)
  {
    var keep := formatter(UniqueEmails(rows)).value;
    forall k | 0 <= k < |rows| ensures rows[k].email in keep {
      assert rows[k].email in UniqueEmails(rows);
    }
    KeepListedAll(rows, keep);
  }

  /** A formatter that returns no emails leaves no rows, but still succeeds. */
  lemma FormatterReturningNothing(rows: seq<Row>, formatter: Formatter)
    requires rows != []
    requires formatter(UniqueEmails(rows)) == Some([])
    ensures FormatEmails(rows, formatter) == Success([])
  {
    KeepListedNone(rows);
  }
}
