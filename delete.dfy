/** `handleDelete`: collect the ids, delete them in one call, and report. */
module Delete {
  import opened Common
  import opened Host
  import opened Criteria
  import opened Collector

  /** The object `handleDelete` resolves with. */
  datatype Response =
    | Deleted(count: nat)      // {response: 'Deleted', count}
    | NoMessagesFound          // {response: 'No Messages Found'}
    | Error(error: string)     // {response: 'Error', error: error.message}

  /** The response for the criteria, given the host's replies. */
  function ExpectedResponse(host: MailHost, c: Criteria): (r: Response)
    ensures r.Deleted? <==> Collected(host, c).Ok? && |Collected(host, c).value| > 0
                            && host.deleteReply(Collected(host, c).value).None?
    ensures r.Deleted? ==> r.count == |Collected(host, c).value| && r.count > 0
    ensures r.NoMessagesFound? <==> Collected(host, c) == Ok([])
    ensures Collected(host, c).Err? ==> r == Error(Collected(host, c).message)
  {
    match Collected(host, c)
    case Err(e) => Error(e)
    case Ok(ids) =>
      if |ids| == 0 then NoMessagesFound
      else
        match host.deleteReply(ids)
        case Some(e) => Error(e)
        case None => Deleted(|ids|)
  }

  /** The delete calls `handleDelete` makes for the criteria. */
  function ExpectedDeletes(host: MailHost, c: Criteria): seq<DeleteCall> {
    match Collected(host, c)
    case Err(_) => []
    case Ok(ids) => if |ids| == 0 then [] else [DeleteCall(ids, false)]
  }

  /** `handleDelete(criteria)`. */
  method HandleDelete(host: MailHost, c: Criteria) returns (r: Response)
    modifies host
    ensures r == ExpectedResponse(host, c)
    ensures host.deleteLog == old(host.deleteLog) + ExpectedDeletes(host, c)
  {
    var messageIds := Collect(host, c);
    if messageIds.Err? {
      return Error(messageIds.message);
    }
    if |messageIds.value| > 0 {
      var failure := host.Delete(messageIds.value, false);
      if failure.Some? {
        return Error(failure.value);
      }
      return Deleted(|messageIds.value|);
    }
    return NoMessagesFound;
  }

  /** The delete is requested once, with exactly the collected ids and
      `skipTrash` false, when the collector found something; otherwise it is
      never requested. The response reports a rejection of either step. */
  lemma DeleteRequestedOnce(host: MailHost, c: Criteria, ids: seq<MessageId>)
    requires Collected(host, c) == Ok(ids)
    ensures ExpectedDeletes(host, c) == (if ids == [] then [] else [DeleteCall(ids, false)])
    ensures ids == [] ==> ExpectedResponse(host, c) == NoMessagesFound
    ensures ids != [] ==>
              ExpectedResponse(host, c)
              == (if host.deleteReply(ids).Some? then Error(host.deleteReply(ids).value) else Deleted(|ids|))
  {
  }

  /** A failing collection deletes nothing and reports its error message. */
  lemma CollectErrorDeletesNothing(host: MailHost, c: Criteria)
    requires Collected(host, c).Err?
    ensures ExpectedDeletes(host, c) == []
    ensures ExpectedResponse(host, c) == Error(Collected(host, c).message)
  {
  }
}
