/** The deletion criteria built by a button's click handler. */
module Criteria {
  import opened Common
  import opened Host
  import opened Address

  /** The `type` string a click handler was created with. */
  datatype Button =
    | DeleteOne          // 'deleteOneButton'
    | DeleteAllNameAddr  // 'deleteAllNameAddrButton'
    | DeleteAllAddr      // 'deleteAllAddrButton'
    | DeleteAllDomain    // 'deleteAllDomainButton'
    | Unrecognised       // any other string

  /** The criteria object `{messageId, delete, name?, sender?, domain?}`. A
      field that was never assigned, or assigned `undefined`, is `None`. */
  datatype Criteria = Criteria(
    messageId: MessageId,
    delete: bool,
    name: Option<string>,
    sender: Option<string>,
    domain: Option<string>)

  /** Which fields each button copies into the criteria, button by button. */
  function CriteriaFor(messageId: MessageId, button: Button, fields: AuthorFields): Criteria {
    match button
    case DeleteAllNameAddr => Criteria(messageId, true, fields.name, fields.sender, fields.domain)
    case DeleteAllAddr => Criteria(messageId, true, None, fields.sender, fields.domain)
    case DeleteAllDomain => Criteria(messageId, true, None, None, fields.domain)
    case DeleteOne => Criteria(messageId, true, None, None, None)
    case Unrecognised => Criteria(messageId, true, None, None, None)
  }

  /** The click handler's `switch`: start from `{messageId, delete: true}` and
      fall through from the name to the sender to the domain assignment. */
  method BuildCriteria(messageId: MessageId, button: Button, fields: AuthorFields)
    returns (c: Criteria)
    ensures c == CriteriaFor(messageId, button, fields)
  {
    c := Criteria(messageId, true, None, None, None);
    var fallThrough := false;
    if button == DeleteAllNameAddr {
      c := c.(name := fields.name);
      fallThrough := true;
    }
    if fallThrough || button == DeleteAllAddr {
      c := c.(sender := fields.sender);
      fallThrough := true;
    }
    if fallThrough || button == DeleteAllDomain {
      c := c.(domain := fields.domain);
    }
  }

  /** The fields of the criteria form a chain by button, name before sender
      before domain; `messageId` is always the displayed message's and the
      delete flag is always set. For fields obtained from an author, each one
      is truthy exactly when its button copies it and the author parsed (the
      name also needs a non-empty display name). */
  lemma CriteriaChain(messageId: MessageId, button: Button, author: string)
    ensures var c := CriteriaFor(messageId, button, FieldsOf(author));
      && c.messageId == messageId && c.delete
      && (c.name.Some? ==> c.sender.Some?)
      && (c.sender.Some? ==> c.domain.Some?)
      && (Truthy(c.domain) <==>
            button in {DeleteAllNameAddr, DeleteAllAddr, DeleteAllDomain} && Parse(author).Parsed?)
      && (Truthy(c.sender) <==>
            button in {DeleteAllNameAddr, DeleteAllAddr} && Parse(author).Parsed?)
      && (Truthy(c.name) <==>
            button == DeleteAllNameAddr && Parse(author).Parsed? && Parse(author).name != "")
  {
  }
}
