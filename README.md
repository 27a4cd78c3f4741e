# BulkDelete popup: selection and deletion pipeline in Dafny

This project models the popup script of BulkDelete (`src/popup.js`), a mail
client extension that deletes every message sharing the displayed message's
author, address or domain. It covers the whole pipeline that runs between a
button click and the status line:

- **Author parsing** (`Address`). The anchored pattern
  `^("?([^"]+)"?\s+)?<?([\w._%+-]+)@([\w.-]+\.[a-zA-Z]{2,})>?$` is written as a
  deterministic parser (`Address.Parse`). The pattern itself is stated as two
  relational forms:
  - `BareForm`: `<?local@domain>?`;
  - `NamedForm`: `"?name"?gap<?local@domain>?`.

  The parser is proved sound and complete against these forms. Completeness
  includes the display name that JavaScript's backtracking matcher settles on.
- **Criteria** (`Criteria`). The fall-through `switch` that copies name,
  sender and domain into the criteria object is modelled as a method. It is
  proved equal to a button-by-button table.
- **Collector dispatch** (`Collector`). The four branches of
  `collectMessageIdsToDelete` are tested in precedence order, using
  JavaScript truthiness:
  - exact-author query `name <sender@domain>`;
  - exact-author query `sender@domain`;
  - full scan with the substring test `"@" + domain`;
  - the displayed message alone.
- **Paging** (`Paging`). `getMessages` follows continuation cursors while they
  are truthy. `getAllMessages` walks accounts, then their top-level folders.
  Both are modelled as loops, proved against stream functions. The stream
  functions are in turn characterised by concatenation lemmas.
- **Deletion and status** (`Delete`, `Popup`). `handleDelete` returns one of
  three outcomes:
  - `Deleted(count)`;
  - `No Messages Found`;
  - `Error(message)`.

  The host's delete call is recorded in a ghost log on the host object. The
  click handler chooses the status text and decides whether the window
  closes.

The host (`Host.MailHost`) is an input to the model. Its listing replies,
account tree and delete outcome are fixed values, so every query, list and
continuation call is a lookup.

How the model represents the source's values:
- JavaScript `undefined` is `None`.
- A string is truthy when it is `Some` and non-empty. A message id is truthy
  when it is not 0.
- A rejected host call is `Err(error.message)`. It propagates as an exception
  does: it ends the loop that awaited it, and the ids gathered so far are
  lost.

The model follows the code, including these points:
- The query branches keep every query result. No folder filtering, scope
  resolution or trash/junk exclusion happens.
- The sender branch searches for `sender@domain` without angle brackets.
- The second argument of the delete call is `false`, so the delete is not
  forced to be permanent; the host decides where deleted messages go.
- A `No Messages Found` outcome shows the error status text.
- For an author that does not parse, every button deletes only the displayed
  message.

Files:

| file | module | contents |
|---|---|---|
| `common.dfy` | `Common` | `Option`, `Result`, truthiness |
| `text.dfy` | `Text` | `\s`, `trim`, ASCII `toLowerCase`, `includes` |
| `address.dfy` | `Address` | the author pattern and its parser |
| `host.dfy` | `Host` | messages, pages, listings, accounts, the host class |
| `paging.dfy` | `Paging` | `getMessages`, `getAllMessages` |
| `criteria.dfy` | `Criteria` | buttons and the criteria object |
| `collector.dfy` | `Collector` | `collectMessageIdsToDelete` |
| `delete.dfy` | `Delete` | `handleDelete` |
| `popup.dfy` | `Popup` | the click handler and its status line |

## Model

| member | source | states |
|---|---|---|
| Text.LeadingSpaces | src/popup.js:223-225 | the count of leading characters `trim` removes: all are white space and the next one is not |
| Text.TrailingSpaces | src/popup.js:223-225 | the count of trailing characters `trim` removes: all are white space and the one before them is not |
| Text.TrimBounds | src/popup.js:223-225 | what lies outside the bounds is white space; the kept part neither starts nor ends with white space |
| Text.TrimSplit | src/popup.js:223-225 | `s` is white space + `trim(s)` + white space, and `trim(s)` is empty or has non-space ends |
| Text.TrimOfNoSpace | src/popup.js:223-225 | `trim` leaves a string without white space unchanged |
| Text.LowerNormalises | src/popup.js:223-225 | lower-casing leaves no letter `A`..`Z`, so lower-casing twice is lower-casing once |
| Text.LowerKeeps | src/popup.js:223-225 | lower-casing neither adds nor removes a non-letter such as `@`, `<` or `>` |
| Text.AfterLastSpace | src/popup.js:66 | the index after the last white-space character: the suffix holds no white space and the character before it is white space |
| Address.StripFirst | src/popup.js:66 | an optional leading `"` or `<` is split off exactly when it is present |
| Address.StripLast | src/popup.js:66 | an optional closing `>` is split off exactly when it is present |
| Address.SplitFirst | src/popup.js:66 | the split is at the first occurrence of the character and fails exactly when it does not occur |
| Address.ParseAddress | src/popup.js:66 | a successful address parse has a sender from `[\w._%+-]+` and a domain of the form `[\w.-]+\.[a-zA-Z]{2,}` |
| Address.Parse | src/popup.js:64-72 | on a match, the sender and the domain satisfy the pattern's capture classes |
| Address.FieldsOf | src/popup.js:64-76 | name, sender and domain are all defined exactly when the author matches; on a match sender and domain are non-empty and drawn from their character classes |
| Address.DomainEndsInLetters | src/popup.js:66 | a matched domain contains a dot, has at least four characters and ends in two ASCII letters |
| Address.AddressHasNoSpace | src/popup.js:66 | the address part `<?local@domain>?` holds no white space |
| Address.CapturesArePlain | src/popup.js:66 | the sender and domain captures hold no white space and no angle bracket |
| Address.ParseAddressComplete | src/popup.js:66 | every `<?local@domain>?` whose parts are drawn from their classes parses back to exactly those parts |
| Address.ParseAddressSound | src/popup.js:66 | every successful address parse comes from such a text |
| Address.ParseNameComplete | src/popup.js:66 | group 1 with captured name `name` yields the quoted name exactly, or an unquoted name extended by all of the gap but its last white-space character |
| Address.ParseNameSound | src/popup.js:66 | a successful name parse comes from `"?name"?gap` with a quote-free non-empty name and white-space gap |
| Address.ParseSound | src/popup.js:64-72 | a match is a bare address when the name is `''` and a named form otherwise |
| Address.ParseCompleteBare | src/popup.js:66-70 | every bare address matches with name `''` and its own sender and domain |
| Address.ParseWithoutName | src/popup.js:66 | an author with no white space before a well-formed address has group 1 absent and parses with an empty name |
| Address.ParseCompleteNamed | src/popup.js:66-72 | every named form matches with its sender and domain, and with the name the backtracking matcher picks |
| Address.ParseNoMatch | src/popup.js:68-76 | when the parse fails, the author is of neither form, for any choice of parts |
| Address.ParseNeedsAt | src/popup.js:66 | a matching author contains `@` |
| Address.NoAtNoMatch | src/popup.js:68-76 | an author without `@` (such as `not an email`) does not match |
| Address.ExampleQuotedName | src/popup.js:66-72 | `"Jane Doe" <jane@example.com>` parses to name `Jane Doe`, sender `jane`, domain `example.com` |
| Address.ExampleBareAddress | src/popup.js:66-72 | `jane@example.com` parses to name `''`, sender `jane`, domain `example.com` |
| Host.MailHost.Delete | src/popup.js:200 | the delete call is appended to the host's log and settles as the host decides |
| Paging.GetMessages | src/popup.js:283-294 | the loop yields exactly the stream of the listing: the first page, then each page reached through a truthy cursor |
| Paging.StreamOfPages | src/popup.js:283-294 | the stream is the concatenation of the pages' messages in page order, up to and including the first page without a cursor, with nothing skipped or repeated |
| Paging.StreamError | src/popup.js:284-289 | a rejected list or continuation call ends the stream with its error, whatever the earlier pages held |
| Paging.GetFoldersMessages | src/popup.js:304-306 | the inner loop yields the streams of an account's top-level folders in order, and stops at the first rejection |
| Paging.GetAllMessages | src/popup.js:300-308 | the nested loops yield the streams of every top-level folder of every account, in order, and stop at the first rejection |
| Paging.ConcatAppend | src/popup.js:302-306 | concatenating the streams of two runs of folders (or accounts) is appending their concatenations |
| Paging.ConcatSkipsEmpty | src/popup.js:304-306 | a folder with no messages contributes nothing and does not stop the folders after it |
| Paging.ConcatError | src/popup.js:302-306 | a rejection in one entry is the result of the whole walk, whatever follows it |
| Criteria.BuildCriteria | src/popup.js:147-164 | the fall-through `switch` produces exactly the button's row of the criteria table |
| Criteria.CriteriaChain | src/popup.js:147-164 | `messageId` and `delete` are always set, and the fields form the chain name ⇒ sender ⇒ domain; for fields parsed from an author, each criterion is truthy exactly when its button copies it and the author matched (the name also needs a non-empty display name) |
| Collector.IdsAppend | src/popup.js:235-237 | the ids of a stream read in two parts are the ids of the first part followed by those of the second |
| Collector.PushAll | src/popup.js:235-237 | the query loops push the id of every streamed message in order |
| Collector.PushMatching | src/popup.js:260-264 | the scan loop pushes, in order, the ids of the messages passing the domain test |
| Collector.Collect | src/popup.js:217-272 | the collector returns exactly the ids of its strategy, or the rejection of a host call |
| Collector.PlanPrecedence | src/popup.js:221-269 | each branch runs exactly when its criteria are truthy and every earlier branch's are not |
| Collector.NoDomainFallsBack | src/popup.js:221-271 | without a truthy domain the result is `[messageId]`, or `[]` when the id is 0, whatever name and sender hold |
| Collector.SearchKeepsEveryMessage | src/popup.js:230-253 | the query branches keep every message of the query's stream, in stream order |
| Collector.SelectsKept | src/popup.js:260-262 | a message that passes the test adds its index to the selection and its id to the output |
| Collector.SelectsSkipped | src/popup.js:260-262 | a message that fails the test leaves the selection and the output unchanged |
| Collector.FilteredSubsequence | src/popup.js:260-264 | a filter keeps an order-preserving subsequence: exactly the messages that pass, each once |
| Collector.KeptIdsSubsequence | src/popup.js:254-264 | the domain scan's ids are the scanned messages passing `author.trim().toLowerCase().includes('@' + domain)`, in order, each once |
| Collector.DomainTestNeedsAt | src/popup.js:257-261 | the domain test holds exactly when the normalised author has an `@` immediately followed by the domain |
| Collector.NoAtNeverKept | src/popup.js:257-261 | an author without `@` is never kept by the domain scan |
| Collector.QueriesUseParsedAddress | src/popup.js:223-248 | for parsed captures, the query strings carry the sender and domain lower-cased and otherwise as parsed; the sender query has no angle brackets |
| Collector.NameAddrWithoutNameActsAsAddr | src/popup.js:221-253 | when the name is empty or undefined, the name-and-address button collects exactly what the address button collects |
| Collector.ButtonsSearchParsedAuthor | src/popup.js:147-257 | for parsed fields, the name-and-address, address and domain buttons search for `name <sender@domain>`, `sender@domain` and `@domain` respectively |
| Delete.ExpectedResponse | src/popup.js:193-210 | the outcome is `Deleted` exactly when ids were found and the delete resolved, with the count of ids, which is positive; it is `No Messages Found` exactly when nothing was found; a collector rejection is `Error` with its message |
| Delete.HandleDelete | src/popup.js:193-210 | the response is the expected one, and the host's log gains exactly the expected delete calls |
| Delete.DeleteRequestedOnce | src/popup.js:196-205 | with ids found, delete is called once with exactly those ids and `skipTrash` false; with none, it is never called and the outcome is `No Messages Found` |
| Delete.CollectErrorDeletesNothing | src/popup.js:195-209 | a collector rejection deletes nothing and reports its message |
| Popup.StatusFor | src/popup.js:169-178 | on `Deleted`, the success text, prefixed by the count when it is truthy, and the window closes; otherwise the error text |
| Popup.Click | src/popup.js:143-178 | a click builds the button's criteria, runs the deletion and shows the status for its outcome |
| Popup.SuccessShowsCount | src/popup.js:169-172 | a successful deletion always shows its count prefix, because the count is never 0 |
| Popup.NothingFoundShowsError | src/popup.js:174-178 | finding nothing deletes nothing, shows the error text and keeps the popup open |
| Popup.UnparsedAuthorSelectsDisplayedOnly | src/popup.js:68-76 | when the author does not match, every button collects the displayed message alone |
| Popup.NoFieldsSelectsDisplayedOnly | src/popup.js:265-268 | with no name, sender or domain, every button collects the displayed message alone |
| Popup.ExampleDeleteOne | src/popup.js:159-161 | the delete-one button on message 42 makes exactly one delete call, `[42]` with `skipTrash` false, and shows `1` before the success text |

## Left out

- The DOM is not modelled: element lookups, the button labels, listener registration (lines 49-58 and 78-126), `appendButtonText` and the "deleting" text at line 166.
- Console logging is not modelled.
- The i18n lookup (`messenger.i18n.getMessage`) is not modelled. A status is the message key plus an optional count prefix; the rendered text is not produced.
- The `setTimeout` and `window.close` calls are modelled only as the status flag `closes`, not as a timer.
- `tabs.query` and `messageDisplay.getDisplayedMessage` (lines 42-47) are not modelled. The displayed message's id and author are parameters.
- Asynchronous execution is not modelled. The domain branch consumes its generator lazily in the source; the model reads the whole stream and then filters it. Filtering has no effect on the host, so the result is the same.
- Re-entrant clicks, one arriving while an earlier deletion is still running, are not modelled, because they concern scheduling.
- The catch block of the click handler (lines 179-184) is not modelled: in the model `handleDelete` never rejects. Its only other trigger is the i18n lookup, which is left out.
- Cursor values are abstracted to their truthiness. A listing is the sequence of replies its list or query call and its continuations produce.
- A host whose cursor chain never ends is not modelled. The `Listing` type requires the last reply to stop; the source would loop forever in that case.
- The effect of `messages.delete` on the mailbox is not modelled. Only the call and how it settles are recorded.
- Messages have only the two fields the script reads, `id` and `author`. A message without an author, which would throw at `author.match` or `author.trim`, is not modelled.
- Text.Lower: only `A`..`Z` are lower-cased. JavaScript's full Unicode case mapping is not modelled.
- Strings are sequences of Unicode characters. The UTF-16 code units of JavaScript strings are not modelled, so a character outside the Basic Multilingual Plane counts as one character, not two.
