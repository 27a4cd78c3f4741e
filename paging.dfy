/** `getMessages` and `getAllMessages`: the message streams the collector
    consumes. A stream is a `Result`: the messages in the order they are
    yielded, or the rejection that makes the consumer's `for await` throw (the
    messages yielded before it are then lost with the exception). */
module Paging {
  import opened Common
  import opened Host

  /** Two streams consumed one after the other: the first rejection wins,
      because nothing after it is ever requested. */
  function Append(x: Result<seq<Message>>, y: Result<seq<Message>>): Result<seq<Message>> {
    if x.Err? then x
    else if y.Err? then y
    else Ok(x.value + y.value)
  }

  /** The messages of a listing from reply `i` on, following cursors while
      they are truthy. */
  function StreamFrom(l: Listing, i: nat): Result<seq<Message>>
    requires i < |l|
    decreases |l| - i
  {
    match l[i]
    case Err(e) => Err(e)
    case Ok(p) =>
      if HasNext(p) then Append(Ok(p.messages), StreamFrom(l, i + 1))
      else Ok(p.messages)
  }

  /** What `getMessages(list)` yields. */
  function Stream(l: Listing): Result<seq<Message>> {
    StreamFrom(l, 0)
  }

  /** The messages of a run of pages, page by page. */
  function Flatten(ps: seq<Page>): seq<Message> {
    if ps == [] then [] else ps[0].messages + Flatten(ps[1..])
  }

  /** The streams of `xs`, one after the other. */
  function Concat<T>(xs: seq<T>, f: T -> Result<seq<Message>>): Result<seq<Message>> {
    if xs == [] then Ok([]) else Append(f(xs[0]), Concat(xs[1..], f))
  }

  /** `getMessages(messages.list(folder))`. */
  function FolderMessages(f: Folder): Result<seq<Message>> {
    Stream(f.listing)
  }

  /** The streams of an account's top-level folders, one after the other. */
  function AccountMessages(a: Account): Result<seq<Message>> {
    match a.subFolders
    case Err(e) => Err(e)
    case Ok(folders) => Concat(folders, FolderMessages)
  }

  /** What `getAllMessages()` yields, given the reply of `accounts.list()`. */
  function AllMessages(accounts: Result<seq<Account>>): Result<seq<Message>> {
    match accounts
    case Err(e) => Err(e)
    case Ok(list) => Concat(list, AccountMessages)
  }

  lemma AppendIdentity(x: Result<seq<Message>>)
    ensures Append(Ok([]), x) == x && Append(x, Ok([])) == x
  {
    if x.Ok? {
      assert [] + x.value == x.value;
      assert x.value + [] == x.value;
    }
  }

  lemma AppendAssoc(x: Result<seq<Message>>, y: Result<seq<Message>>, z: Result<seq<Message>>)
    ensures Append(x, Append(y, z)) == Append(Append(x, y), z)
  {
    if x.Ok? && y.Ok? && z.Ok? {
      assert x.value + (y.value + z.value) == (x.value + y.value) + z.value;
    }
  }

  /** A listing whose first replies are the pages `ps`, every one but the last
      carrying a cursor, yields exactly their messages in page order. */
  lemma {:induction false} StreamOfPagesFrom(l: Listing, i: nat, ps: seq<Page>)
    requires 0 < |ps| && i + |ps| <= |l|
    requires forall k | 0 <= k < |ps| :: l[i + k] == Ok(ps[k])
    requires forall k | 0 <= k < |ps| - 1 :: HasNext(ps[k])
    requires !HasNext(ps[|ps| - 1])
    ensures StreamFrom(l, i) == Ok(Flatten(ps))
    decreases |ps|
  {
    assert l[i] == Ok(ps[0]);
    if |ps| == 1 {
      assert ps[1..] == [];
      assert Flatten(ps) == ps[0].messages + [];
      assert !HasNext(ps[0]);
      assert StreamFrom(l, i) == Ok(ps[0].messages);
      assert ps[0].messages + [] == ps[0].messages;
    } else {
      var rest := ps[1..];
      assert forall k | 0 <= k < |rest| :: l[i + 1 + k] == Ok(rest[k]) by {
        forall k | 0 <= k < |rest| ensures l[i + 1 + k] == Ok(rest[k]) {
          assert l[i + (k + 1)] == Ok(ps[k + 1]);
        }
      }
      StreamOfPagesFrom(l, i + 1, rest);
    }
  }

  /** Pagination: the stream is the concatenation of the pages up to and
      including the first one without a cursor; nothing is skipped, repeated
      or read beyond it. */
  lemma StreamOfPages(l: Listing, ps: seq<Page>)
    requires 0 < |ps| <= |l|
    requires forall k | 0 <= k < |ps| :: l[k] == Ok(ps[k])
    requires forall k | 0 <= k < |ps| - 1 :: HasNext(ps[k])
    requires !HasNext(ps[|ps| - 1])
    ensures Stream(l) == Ok(Flatten(ps))
  {
    StreamOfPagesFrom(l, 0, ps);
  }

  lemma {:induction false} StreamErrorFrom(l: Listing, i: nat, ps: seq<Page>, e: string)
    requires i + |ps| < |l|
    requires forall k | 0 <= k < |ps| :: l[i + k] == Ok(ps[k]) && HasNext(ps[k])
    requires l[i + |ps|] == Err(e)
    ensures StreamFrom(l, i) == Err(e)
    decreases |ps|
  {
    if ps != [] {
      assert l[i] == Ok(ps[0]);
      var rest := ps[1..];
      assert forall k | 0 <= k < |rest| :: l[i + 1 + k] == Ok(rest[k]) && HasNext(rest[k]) by {
        forall k | 0 <= k < |rest| ensures l[i + 1 + k] == Ok(rest[k]) && HasNext(rest[k]) {
          assert l[i + (k + 1)] == Ok(ps[k + 1]);
        }
      }
      StreamErrorFrom(l, i + 1, rest, e);
    }
  }

  /** A rejected continuation ends the stream with that rejection, whatever
      the pages before it held. */
  lemma StreamError(l: Listing, ps: seq<Page>, e: string)
    requires |ps| < |l|
    requires forall k | 0 <= k < |ps| :: l[k] == Ok(ps[k]) && HasNext(ps[k])
    requires l[|ps|] == Err(e)
    ensures Stream(l) == Err(e)
  {
    StreamErrorFrom(l, 0, ps, e);
  }

  /** Concatenating the streams of two runs of entries is the same as
      appending the two concatenations. */
  lemma {:induction false} ConcatAppend<T>(xs: seq<T>, ys: seq<T>, f: T -> Result<seq<Message>>)
    ensures Concat(xs + ys, f) == Append(Concat(xs, f), Concat(ys, f))
    decreases |xs|
  {
    if xs == [] {
      assert xs + ys == ys;
      AppendIdentity(Concat(ys, f));
    } else {
      assert (xs + ys)[0] == xs[0];
      assert (xs + ys)[1..] == xs[1..] + ys;
      ConcatAppend(xs[1..], ys, f);
      AppendAssoc(f(xs[0]), Concat(xs[1..], f), Concat(ys, f));
    }
  }

  /** An entry whose stream is empty contributes nothing and does not stop
      the entries after it. */
  lemma ConcatSkipsEmpty<T>(xs: seq<T>, x: T, ys: seq<T>, f: T -> Result<seq<Message>>)
    requires f(x) == Ok([])
    ensures Concat(xs + [x] + ys, f) == Concat(xs + ys, f)
  {
    ConcatAppend(xs + [x], ys, f);
    ConcatAppend(xs, [x], f);
    ConcatAppend(xs, ys, f);
    assert [x][1..] == [];
    assert Concat([x], f) == Append(f(x), Concat([], f));
    AppendIdentity(Concat([], f));
    AppendIdentity(Concat(xs, f));
    assert Concat(xs + [x], f) == Concat(xs, f);
  }

  /** A rejection in one entry is the result of the whole concatenation,
      whatever the entries after it hold. */
  lemma ConcatError<T>(xs: seq<T>, i: nat, f: T -> Result<seq<Message>>)
    requires i < |xs| && Concat(xs[..i], f).Ok? && f(xs[i]).Err?
    ensures Concat(xs, f) == f(xs[i])
  {
    assert xs == xs[..i] + ([xs[i]] + xs[i + 1..]);
    ConcatAppend(xs[..i], [xs[i]] + xs[i + 1..], f);
  }

  lemma ConcatStep<T>(xs: seq<T>, i: nat, f: T -> Result<seq<Message>>)
    requires i < |xs|
    ensures Concat(xs[..i + 1], f) == Append(Concat(xs[..i], f), f(xs[i]))
  {
    assert xs[..i + 1] == xs[..i] + [xs[i]];
    ConcatAppend(xs[..i], [xs[i]], f);
    assert [xs[i]][1..] == [];
    assert Concat([xs[i]], f) == Append(f(xs[i]), Concat([], f));
    AppendIdentity(f(xs[i]));
  }

  lemma ConcatStepOk<T>(xs: seq<T>, i: nat, f: T -> Result<seq<Message>>, a: seq<Message>, b: seq<Message>)
    requires i < |xs| && Concat(xs[..i], f) == Ok(a) && f(xs[i]) == Ok(b)
    ensures Concat(xs[..i + 1], f) == Ok(a + b)
  {
    ConcatStep(xs, i, f);
  }

  /** `getMessages(list)`: the first page's messages, then every page fetched
      by following a truthy cursor. */
  method GetMessages(l: Listing) returns (r: Result<seq<Message>>)
    ensures r == Stream(l)
  {
    if l[0].Err? {
      return Err(l[0].message);
    }
    var page := l[0].value;
    var i := 0;
    var msgs := page.messages;
    ghost var before: seq<Message> := [];
    AppendIdentity(StreamFrom(l, 0));
    while HasNext(page)
      invariant i < |l| && l[i] == Ok(page)
      invariant msgs == before + page.messages
      invariant Stream(l) == Append(Ok(before), StreamFrom(l, i))
      decreases |l| - i
    {
      AppendAssoc(Ok(before), Ok(page.messages), StreamFrom(l, i + 1));
      i := i + 1;
      var reply := l[i];
      if reply.Err? {
        return Err(reply.message);
      }
      before := msgs;
      page := reply.value;
      msgs := msgs + page.messages;
    }
    r := Ok(msgs);
  }

  /** The inner loop of `getAllMessages()`: the streams of one account's
      top-level folders, in order, stopping at the first rejection. */
  method GetFoldersMessages(folders: seq<Folder>) returns (r: Result<seq<Message>>)
    ensures r == Concat(folders, FolderMessages)
  {
    var msgs := [];
    var j := 0;
    while j < |folders|
      invariant j <= |folders|
      invariant Concat(folders[..j], FolderMessages) == Ok(msgs)
    {
      var part := GetMessages(folders[j].listing);
      if part.Err? {
        ConcatError(folders, j, FolderMessages);
        return Err(part.message);
      }
      ConcatStepOk(folders, j, FolderMessages, msgs, part.value);
      msgs := msgs + part.value;
      j := j + 1;
    }
    assert folders[..j] == folders;
    r := Ok(msgs);
  }

  /** `getAllMessages()`: for each account in order, for each of its
      top-level folders in order, the folder's stream. */
  method GetAllMessages(host: MailHost) returns (r: Result<seq<Message>>)
    ensures r == AllMessages(host.accounts)
  {
    if host.accounts.Err? {
      return Err(host.accounts.message);
    }
    var accounts := host.accounts.value;
    var msgs := [];
    var i := 0;
    while i < |accounts|
      invariant i <= |accounts|
      invariant Concat(accounts[..i], AccountMessages) == Ok(msgs)
    {
      var account := accounts[i];
      if account.subFolders.Err? {
        ConcatError(accounts, i, AccountMessages);
        return Err(account.subFolders.message);
      }
      var part := GetFoldersMessages(account.subFolders.value);
      if part.Err? {
        ConcatError(accounts, i, AccountMessages);
        return Err(part.message);
      }
      ConcatStepOk(accounts, i, AccountMessages, msgs, part.value);
      msgs := msgs + part.value;
      i := i + 1;
    }
    assert accounts[..i] == accounts;
    r := Ok(msgs);
  }
}
