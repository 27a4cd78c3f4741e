/** A button's click handler from start to finish: criteria, deletion and
    the status it shows. */
module Popup {
  import opened Common
  import opened Address
  import opened Host
  import opened Criteria
  import opened Collector
  import opened Delete

  /** What the status line shows after a click: a message key, preceded by
      the count when one is shown. Whether the popup closes itself is `closes`. */
  datatype Status = Status(countPrefix: Option<nat>, key: string, closes: bool)

  /** The status chosen from the response: on `Deleted`, the success text,
      prefixed by the count when it is truthy, and the window closes;
      otherwise the error text. */
  function StatusFor(r: Response): (s: Status)
    ensures s.closes <==> r.Deleted?
    ensures s.key == (if r.Deleted? then "statusTextDeleteSuccess" else "statusTextDeleteError")
    ensures s.countPrefix.Some? <==> r.Deleted? && r.count != 0
    ensures r.Deleted? && r.count != 0 ==> s.countPrefix == Some(r.count)
  {
    if r.Deleted? then
      Status(if r.count != 0 then Some(r.count) else None, "statusTextDeleteSuccess", true)
    else
      Status(None, "statusTextDeleteError", false)
  }

  /** The click handler made by `getDeleteFunc` for `button`, run on the
      displayed message's id and the fields parsed from its author. */
  method Click(host: MailHost, messageId: MessageId, button: Button, fields: AuthorFields)
    returns (status: Status)
    modifies host
    ensures status == StatusFor(ExpectedResponse(host, CriteriaFor(messageId, button, fields)))
    ensures host.deleteLog
         == old(host.deleteLog) + ExpectedDeletes(host, CriteriaFor(messageId, button, fields))
  {
    var criteria := BuildCriteria(messageId, button, fields);
    var r := HandleDelete(host, criteria);
    status := StatusFor(r);
  }

  /** A successful deletion always shows its count: the count is the number
      of ids deleted, which is never 0. */
  lemma SuccessShowsCount(host: MailHost, c: Criteria)
    requires ExpectedResponse(host, c).Deleted?
    ensures StatusFor(ExpectedResponse(host, c))
         == Status(Some(|Collected(host, c).value|), "statusTextDeleteSuccess", true)
  {
  }

  /** Finding nothing to delete shows the error text and keeps the popup open. */
  lemma NothingFoundShowsError(host: MailHost, c: Criteria)
    requires Collected(host, c) == Ok([])
    ensures StatusFor(ExpectedResponse(host, c)) == Status(None, "statusTextDeleteError", false)
    ensures ExpectedDeletes(host, c) == []
  {
  }

  /** Without any parsed field, every button deletes the displayed message alone. */
  lemma NoFieldsSelectsDisplayedOnly(host: MailHost, messageId: MessageId, button: Button)
    requires messageId != 0
    ensures Collected(host, CriteriaFor(messageId, button, AuthorFields(None, None, None))) == Ok([messageId])
  {
  }

  /** When the author did not parse, every button deletes the displayed
      message alone. */
  lemma UnparsedAuthorSelectsDisplayedOnly(host: MailHost, messageId: MessageId,
                                           button: Button, author: string)
    requires Parse(author).NoMatch? && messageId != 0
    ensures Collected(host, CriteriaFor(messageId, button, FieldsOf(author))) == Ok([messageId])
  {
    assert FieldsOf(author) == AuthorFields(None, None, None);
    NoFieldsSelectsDisplayedOnly(host, messageId, button);
  }

  /** The delete-one button on message 42 makes one delete call, `[42]` with
      `skipTrash` false, and, when the host accepts, shows "1" before the
      success text. */
  lemma ExampleDeleteOne(host: MailHost, fields: AuthorFields)
    requires host.deleteReply([42]) == None
    ensures ExpectedDeletes(host, CriteriaFor(42, DeleteOne, fields)) == [DeleteCall([42], false)]
    ensures StatusFor(ExpectedResponse(host, CriteriaFor(42, DeleteOne, fields)))
         == Status(Some(1), "statusTextDeleteSuccess", true)
  {
    assert Collected(host, CriteriaFor(42, DeleteOne, fields)) == Ok([42]);
  }
}
