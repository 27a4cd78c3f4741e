/** `collectMessageIdsToDelete`: from the criteria to the ids of the messages
    to delete. */
module Collector {
  import opened Common
  import opened Text
  import opened Address
  import opened Host
  import opened Paging
  import opened Criteria

  /** The branch the collector takes, with the text it searches for. */
  datatype Strategy =
    | NameAddressSearch(author: string)  // messages.query({author: 'name <sender@domain>'})
    | AddressSearch(author: string)      // messages.query({author: 'sender@domain'})
    | DomainScan(atDomain: string)       // every message of every top-level folder, filtered
    | SingleMessage(id: MessageId)       // the displayed message only
    | NothingSelected

  /** The author string of the name branch, built from the normalised parts. */
  function NameAddressQuery(name: string, sender: string, domain: string): string {
    Norm(name) + " <" + Norm(sender) + "@" + Norm(domain) + ">"
  }

  /** The author string of the sender branch; it carries no angle brackets. */
  function AddressQuery(sender: string, domain: string): string {
    Norm(sender) + "@" + Norm(domain)
  }

  /** The `if`/`else if` chain of the collector, in its order of precedence. */
  function Plan(c: Criteria): Strategy {
    if Truthy(c.name) && Truthy(c.sender) && Truthy(c.domain) then
      NameAddressSearch(NameAddressQuery(c.name.value, c.sender.value, c.domain.value))
    else if Truthy(c.sender) && Truthy(c.domain) then
      AddressSearch(AddressQuery(c.sender.value, c.domain.value))
    else if Truthy(c.domain) then
      DomainScan("@" + Norm(c.domain.value))
    else if c.messageId != 0 then
      SingleMessage(c.messageId)
    else
      NothingSelected
  }

  /** The domain branch's test: `author.trim().toLowerCase().includes(atDomain)`. */
  predicate AuthorMatches(m: Message, atDomain: string) {
    Contains(Norm(m.author), atDomain)
  }

  /** The ids of `ms`, in order. */
  function Ids(ms: seq<Message>): (r: seq<MessageId>)
    ensures |r| == |ms|
    ensures forall i | 0 <= i < |ms| :: r[i] == ms[i].id
  {
    seq(|ms|, i requires 0 <= i < |ms| => ms[i].id)
  }

  /** The domain test as a predicate on messages. */
  function MatchesDomain(atDomain: string): Message -> bool {
    m => AuthorMatches(m, atDomain)
  }

  /** Taking ids distributes over concatenation: the ids of a stream read in
      two parts are the ids of the parts, one after the other. */
  lemma IdsAppend(a: seq<Message>, b: seq<Message>)
    ensures Ids(a + b) == Ids(a) + Ids(b)
  {
  }

  /** The ids of the messages of `ms` that satisfy `keep`, in order. */
  function Filtered(ms: seq<Message>, keep: Message -> bool): seq<MessageId> {
    if ms == [] then []
    else
      var last := ms[|ms| - 1];
      Filtered(ms[..|ms| - 1], keep) + (if keep(last) then [last.id] else [])
  }

  /** The ids the domain scan keeps. */
  function KeptIds(ms: seq<Message>, atDomain: string): seq<MessageId> {
    Filtered(ms, MatchesDomain(atDomain))
  }

  /** The ids a search yields: those of every message the query's stream produces. */
  function Searched(host: MailHost, q: string): Result<seq<MessageId>> {
    match Stream(host.query(q))
    case Err(e) => Err(e)
    case Ok(ms) => Ok(Ids(ms))
  }

  /** The ids the collector returns, or the rejection that escapes it. */
  function Collected(host: MailHost, c: Criteria): Result<seq<MessageId>> {
    match Plan(c)
    case NameAddressSearch(q) => Searched(host, q)
    case AddressSearch(q) => Searched(host, q)
    case DomainScan(atDomain) =>
      (match AllMessages(host.accounts)
       case Err(e) => Err(e)
       case Ok(ms) => Ok(KeptIds(ms, atDomain)))
    case SingleMessage(id) => Ok([id])
    case NothingSelected => Ok([])
  }

  /** The `for await` loops of the query branches: push every id. */
  method PushAll(ids: seq<MessageId>, ms: seq<Message>) returns (out: seq<MessageId>)
    ensures out == ids + Ids(ms)
  {
    out := ids;
    var i := 0;
    while i < |ms|
      invariant i <= |ms|
      invariant out == ids + Ids(ms[..i])
    {
      assert ms[..i + 1] == ms[..i] + [ms[i]];
      IdsAppend(ms[..i], [ms[i]]);
      out := out + [ms[i].id];
      i := i + 1;
    }
    assert ms[..i] == ms;
  }

  /** The `for await` loop of the domain branch: push the ids of the
      messages that pass the test. */
  method PushMatching(ids: seq<MessageId>, ms: seq<Message>, atDomain: string)
    returns (out: seq<MessageId>)
    ensures out == ids + KeptIds(ms, atDomain)
  {
    out := ids;
    var i := 0;
    while i < |ms|
      invariant i <= |ms|
      invariant out == ids + Filtered(ms[..i], MatchesDomain(atDomain))
    {
      assert ms[..i + 1][..i] == ms[..i];
      if AuthorMatches(ms[i], atDomain) {
        out := out + [ms[i].id];
      }
      i := i + 1;
    }
    assert ms[..i] == ms;
  }

  /** `collectMessageIdsToDelete(criteria)`. */
  method Collect(host: MailHost, c: Criteria) returns (r: Result<seq<MessageId>>)
    ensures r == Collected(host, c)
  {
    var messageIds := [];
    if Truthy(c.name) && Truthy(c.sender) && Truthy(c.domain) {
      var messages := GetMessages(host.query(NameAddressQuery(c.name.value, c.sender.value, c.domain.value)));
      if messages.Err? {
        return Err(messages.message);
      }
      messageIds := PushAll(messageIds, messages.value);
      assert messageIds == Ids(messages.value);
    } else if Truthy(c.sender) && Truthy(c.domain) {
      var messages := GetMessages(host.query(AddressQuery(c.sender.value, c.domain.value)));
      if messages.Err? {
        return Err(messages.message);
      }
      messageIds := PushAll(messageIds, messages.value);
      assert messageIds == Ids(messages.value);
    } else if Truthy(c.domain) {
      var atDomain := "@" + Norm(c.domain.value);
      var messages := GetAllMessages(host);
      if messages.Err? {
        return Err(messages.message);
      }
      messageIds := PushMatching(messageIds, messages.value, atDomain);
      assert messageIds == KeptIds(messages.value, atDomain);
    } else if c.messageId != 0 {
      messageIds := messageIds + [c.messageId];
      assert messageIds == [c.messageId];
    }
    r := Ok(messageIds);
  }

  // ---------------------------------------------------------------------------
  // Properties

  /** Precedence: the name branch runs exactly when name, sender and domain
      are all truthy; the sender branch exactly when sender and domain are
      but the name is not; the domain scan exactly when only the domain is. */
  lemma PlanPrecedence(c: Criteria)
    ensures Plan(c).NameAddressSearch? <==> Truthy(c.name) && Truthy(c.sender) && Truthy(c.domain)
    ensures Plan(c).AddressSearch? <==> !Truthy(c.name) && Truthy(c.sender) && Truthy(c.domain)
    ensures Plan(c).DomainScan? <==> !Truthy(c.sender) && Truthy(c.domain)
    ensures Plan(c).SingleMessage? <==> !Truthy(c.domain) && c.messageId != 0
  {
  }

  /** Without a domain nothing is searched: even with a name and a sender the
      result is the displayed message alone, or nothing when its id is 0. */
  lemma NoDomainFallsBack(host: MailHost, c: Criteria)
    requires !Truthy(c.domain)
    ensures Collected(host, c) == Ok(if c.messageId != 0 then [c.messageId] else [])
  {
  }

  /** The query branches keep every message the paged query yields, in
      stream order, with no further filtering. */
  lemma SearchKeepsEveryMessage(host: MailHost, c: Criteria, ms: seq<Message>)
    requires Plan(c).NameAddressSearch? || Plan(c).AddressSearch?
    requires Stream(host.query(Plan(c).author)) == Ok(ms)
    ensures Collected(host, c).Ok?
    ensures |Collected(host, c).value| == |ms|
    ensures forall i | 0 <= i < |ms| :: Collected(host, c).value[i] == ms[i].id
  {
  }

  /** `idx` lists, in increasing order, exactly the indices of the messages
      of `ms` that satisfy `keep`, and `out` holds their ids in that order. */
  ghost predicate Selects(ms: seq<Message>, keep: Message -> bool, out: seq<MessageId>, idx: seq<nat>) {
    && |idx| == |out|
    && (forall j | 0 <= j < |idx| :: idx[j] < |ms| && out[j] == ms[idx[j]].id)
    && (forall j, k | 0 <= j < k < |idx| :: idx[j] < idx[k])
    && (forall k | 0 <= k < |ms| :: k in idx <==> keep(ms[k]))
  }

  /** One step of the filter when the appended message passes: its index
      joins the selection and its id the output. */
  lemma SelectsKept(init: seq<Message>, m: Message, keep: Message -> bool,
                    out: seq<MessageId>, prev: seq<nat>)
    requires keep(m) && Selects(init, keep, out, prev)
    ensures Selects(init + [m], keep, out + [m.id], prev + [|init|])
  {
    var ms := init + [m];
    var n := |init|;
    assert forall j | 0 <= j < |prev| :: prev[j] < n;
    forall k | 0 <= k < |ms|
      ensures k in prev + [n] <==> keep(ms[k])
    {
      if k < n {
        assert ms[k] == init[k];
      } else {
        assert ms[k] == m;
      }
    }
  }

  /** One step of the filter when the appended message fails: the selection
      and the output stay as they are. */
  lemma SelectsSkipped(init: seq<Message>, m: Message, keep: Message -> bool,
                       out: seq<MessageId>, prev: seq<nat>)
    requires !keep(m) && Selects(init, keep, out, prev)
    ensures Selects(init + [m], keep, out, prev)
  {
    var ms := init + [m];
    var n := |init|;
    assert forall j | 0 <= j < |prev| :: prev[j] < n;
    forall j | 0 <= j < |prev|
      ensures out[j] == ms[prev[j]].id
    {
      assert ms[prev[j]] == init[prev[j]];
    }
    forall k | 0 <= k < |ms|
      ensures k in prev <==> keep(ms[k])
    {
      if k < n {
        assert ms[k] == init[k];
      } else {
        assert ms[k] == m;
      }
    }
  }

  /** By induction on the number of messages: `Filtered` selects exactly
      the passing messages, in order. */
  lemma {:induction false} FilteredSubsequence(ms: seq<Message>, keep: Message -> bool)
    returns (idx: seq<nat>)
    ensures Selects(ms, keep, Filtered(ms, keep), idx)
    decreases |ms|
  {
    if ms == [] {
      idx := [];
    } else {
      var init := ms[..|ms| - 1];
      var m := ms[|ms| - 1];
      assert ms == init + [m];
      var prev := FilteredSubsequence(init, keep);
      if keep(m) {
        assert Filtered(ms, keep) == Filtered(init, keep) + [m.id];
        SelectsKept(init, m, keep, Filtered(init, keep), prev);
        idx := prev + [|init|];
      } else {
        assert Filtered(ms, keep) == Filtered(init, keep) + [];
        assert Filtered(init, keep) + [] == Filtered(init, keep);
        SelectsSkipped(init, m, keep, Filtered(init, keep), prev);
        idx := prev;
      }
    }
  }

  /** The domain scan keeps an order-preserving subsequence of the scanned
      messages: exactly those passing the test, each once. */
  lemma KeptIdsSubsequence(ms: seq<Message>, atDomain: string) returns (idx: seq<nat>)
    ensures |idx| == |KeptIds(ms, atDomain)|
    ensures forall j | 0 <= j < |idx| :: idx[j] < |ms| && KeptIds(ms, atDomain)[j] == ms[idx[j]].id
    ensures forall j, k | 0 <= j < k < |idx| :: idx[j] < idx[k]
    ensures forall k | 0 <= k < |ms| :: k in idx <==> AuthorMatches(ms[k], atDomain)
  {
    idx := FilteredSubsequence(ms, MatchesDomain(atDomain));
  }

  /** The domain test looks for the domain right after an `@`: an author
      containing the domain with no `@` in front of it is not kept. */
  lemma DomainTestNeedsAt(m: Message, domain: string)
    ensures AuthorMatches(m, "@" + domain) <==>
      exists i | 0 <= i < |Norm(m.author)| :: AtBefore(Norm(m.author), domain, i)
  {
    var t := Norm(m.author);
    forall i | 0 <= i <= |t|
      ensures OccursAt(t, "@" + domain, i) <==> (i < |t| && AtBefore(t, domain, i))
    {
      if i < |t| && i + 1 + |domain| <= |t| {
        assert t[i..i + 1 + |domain|] == [t[i]] + t[i + 1..i + 1 + |domain|];
      }
    }
  }

  /** `s[i]` is an `@` immediately followed by `domain`. */
  predicate AtBefore(s: string, domain: string, i: nat) {
    i < |s| && s[i] == '@' && OccursAt(s, domain, i + 1)
  }

  /** An author without `@` is never kept by a domain scan. */
  lemma NoAtNeverKept(m: Message, domain: string)
    requires '@' !in m.author
    ensures !AuthorMatches(m, "@" + domain)
  {
    DomainTestNeedsAt(m, domain);
    var pre, post := TrimSplit(m.author);
    LowerKeeps(Trim(m.author), '@');
    assert '@' !in Trim(m.author);
  }

  /** For the captures of a parsed author, the query text carries the sender
      and domain exactly as parsed, lower-cased, and the sender branch's
      query has no angle brackets. */
  lemma QueriesUseParsedAddress(name: string, sender: string, domain: string)
    requires Captures(sender, domain)
    ensures NameAddressQuery(name, sender, domain)
         == Norm(name) + " <" + Lower(sender) + "@" + Lower(domain) + ">"
    ensures AddressQuery(sender, domain) == Lower(sender) + "@" + Lower(domain)
    ensures '<' !in AddressQuery(sender, domain) && '>' !in AddressQuery(sender, domain)
  {
    CapturesArePlain(sender, domain);
    TrimOfNoSpace(sender);
    TrimOfNoSpace(domain);
    LowerKeeps(sender, '<');
    LowerKeeps(sender, '>');
    LowerKeeps(domain, '<');
    LowerKeeps(domain, '>');
  }

  /** When the parsed display name is empty (an author that is a bare
      address), the name-and-address button collects exactly what the
      address button collects. */
  lemma NameAddrWithoutNameActsAsAddr(host: MailHost, messageId: MessageId, fields: AuthorFields)
    requires !Truthy(fields.name)
    ensures Collected(host, CriteriaFor(messageId, DeleteAllNameAddr, fields))
         == Collected(host, CriteriaFor(messageId, DeleteAllAddr, fields))
  {
    assert Plan(CriteriaFor(messageId, DeleteAllNameAddr, fields))
        == Plan(CriteriaFor(messageId, DeleteAllAddr, fields));
  }

  /** For the fields of a parsed author, the name-and-address button searches
      for `name <sender@domain>` (when the name is not empty), the address
      button for `sender@domain` and the domain button scans for `@domain`,
      all with the captures lower-cased. */
  lemma ButtonsSearchParsedAuthor(messageId: MessageId, name: string, sender: string, domain: string)
    requires Captures(sender, domain)
    ensures var f := AuthorFields(Some(name), Some(sender), Some(domain));
      && (name != "" ==>
           Plan(CriteriaFor(messageId, DeleteAllNameAddr, f))
           == NameAddressSearch(Norm(name) + " <" + Lower(sender) + "@" + Lower(domain) + ">"))
      && Plan(CriteriaFor(messageId, DeleteAllAddr, f))
           == AddressSearch(Lower(sender) + "@" + Lower(domain))
      && Plan(CriteriaFor(messageId, DeleteAllDomain, f)) == DomainScan("@" + Lower(domain))
  {
    QueriesUseParsedAddress(name, sender, domain);
    CapturesArePlain(sender, domain);
    TrimOfNoSpace(domain);
  }
}
