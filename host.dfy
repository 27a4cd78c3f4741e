/** The mail host as the popup sees it: the replies of the message-listing
    calls, the account and folder tree, and the one call that changes state,
    the delete. Each listing call is represented by the sequence of replies it
    and its continuations produce, so a cursor's value matters only through
    its truthiness. */
module Host {
  import opened Common

  /** A message's numeric id (`message.id`); truthy iff it is not 0. */
  type MessageId = int

  /** The fields of a message header the popup reads. */
  datatype Message = Message(id: MessageId, author: string)

  /** One page of a message list: its messages and the continuation cursor
      (`page.id`), which is `undefined` or a falsy string on the last page. */
  datatype Page = Page(messages: seq<Message>, cursor: Option<string>)

  /** `while (page.id)`: the page has a continuation. */
  predicate HasNext(p: Page) {
    Truthy(p.cursor)
  }

  /** A reply after which no further continuation is requested: a rejection,
      or a page without a cursor. */
  predicate Stops(reply: Result<Page>) {
    reply.Err? || !HasNext(reply.value)
  }

  /** The replies of one listing: element 0 answers `messages.list` or
      `messages.query`, element `i + 1` answers `messages.continueList` with
      the cursor of element `i`. The host ends every chain, so the last
      reply stops. */
  type Listing = l: seq<Result<Page>> | |l| > 0 && Stops(l[|l| - 1])
    witness [Err("")]

  /** A top-level folder of an account and the listing `messages.list` gives for it. */
  datatype Folder = Folder(listing: Listing)

  /** An account and the reply of `folders.getSubFolders(account)`. */
  datatype Account = Account(subFolders: Result<seq<Folder>>)

  /** One `messages.delete(ids, skipTrash)` call as the host received it. */
  datatype DeleteCall = DeleteCall(ids: seq<MessageId>, skipTrash: bool)

  /** The host. Its replies are fixed inputs; the delete calls it receives are
      recorded in `deleteLog`. */
  class MailHost {
    /** The listing `messages.query({author: q})` produces. */
    const query: string -> Listing
    /** The reply of `accounts.list()`. */
    const accounts: Result<seq<Account>>
    /** How `messages.delete(ids, ...)` settles: `None` when it resolves,
        `Some(message)` when it rejects. */
    const deleteReply: seq<MessageId> -> Option<string>
    /** Every delete call received so far, oldest first. */
    ghost var deleteLog: seq<DeleteCall>

    constructor (query: string -> Listing, accounts: Result<seq<Account>>,
                 deleteReply: seq<MessageId> -> Option<string>)
      ensures this.query == query && this.accounts == accounts
      ensures this.deleteReply == deleteReply
      ensures deleteLog == []
    {
      this.query := query;
      this.accounts := accounts;
      this.deleteReply := deleteReply;
      deleteLog := [];
    }

    /** `messages.delete(ids, skipTrash)`: the call is recorded, and the
        result says whether the host rejected it. */
    method Delete(ids: seq<MessageId>, skipTrash: bool) returns (failure: Option<string>)
      modifies this
      ensures deleteLog == old(deleteLog) + [DeleteCall(ids, skipTrash)]
      ensures failure == deleteReply(ids)
    {
      deleteLog := deleteLog + [DeleteCall(ids, skipTrash)];
      failure := deleteReply(ids);
    }
  }
}
