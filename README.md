# Verified model of the bot's input parsers, paging, escaping and IMAP backoff

The bot keeps a pool of mailboxes and proxies that its users type in as
text. It lists them in paged chat messages and polls the mailboxes over IMAP.
This project models the bot's self-contained helpers in `bot.py` and proves
what they promise:

- **Line parsers** (`parsers.dfy`). `parse_proxy_lines` reads
  `host:port:login:password` lines, `parse_lines_one` reads
  `email:password` lines and `parse_lines_many` reads `email:password:name`
  lines. All three skip blank lines, `#` comments and malformed lines and
  keep input order. The three share one loop over the lines, proved against
  a specification function built from each per-line parser. A well-formed entry written as a line
  (or a block of them) parses back to itself.
- **Batches** (`batches.dfy`). `join_batches` groups lines into messages of
  at most `batch_size` lines. The loop, with its buffer, is proved equal to
  a reference grouping. That grouping loses and reorders nothing, fills
  every group but the last, and its messages split back into the lines.
- **Paging** (`paging.dfy`). The page clamp and `[start, end)` slice shared
  by the list renderers, `pager_row`'s neighbour pages, the page number the
  list handler reads back from a pager button, and `_get_by_ordinal`. Pages
  tile the list, and page `p` is exactly group `p` of `join_batches`.
- **Domain reorder** (`reorder.dfy`). The typed order is accepted exactly
  when it is a permutation of 1..n. An accepted order rearranges the
  domains into a permutation of the old list.
- **IMAP host** (`imaphost.dfy`). `resolve_imap_host` looks up the provider
  table by the lower-cased domain. It falls back to `imap.<domain>`, or to
  Gmail's server when there is no domain (bot.py:2920).
- **Escaping** (`escape.dfy`). `tg` and `code`: the chained replacements
  equal a per-character escape, and unescaping gives the text back.
- **Backoff** (`backoff.dfy`). The status table `IMAP_STATUS` is a class
  updated in place: a success resets the failure count and the retry time,
  a failure counts one more and sets the retry time `min(600,
  2^min(retries, 6))` seconds ahead. The selection loop of `imap_loop`
  skips accounts still backing off. Stopping one account, a group of
  accounts, or all of them with `/stop` marks the records inactive and
  keeps everything else; deleting accounts drops their records. Every
  writer keeps the table's invariant (`Coherent` for each record), and in
  such a table an active account is always polled. The delay never exceeds 64 seconds, so the
  600-second cap is never reached.

`wrappers.dfy` holds `Option`/`Result`. `strings.dfy` models the Python
string operations the helpers use (`strip`, `split`, `splitlines`,
`split()`, `join`, `isdigit`, `int`, `str`, `lower`, `replace`) with their
Python edge cases. Integers are unbounded as in Python; time is a whole
number of seconds.

## Model

| member | source | states |
|---|---|---|
| Strings.Strip | bot.py:2834 | `str.strip()`: the result has no whitespace at either end (Python's full whitespace set) |
| Strings.Split | bot.py:2837 | `str.split(":")`: at least one field, none containing the separator |
| Strings.SplitN | bot.py:2798 | `str.split(":", n)`: between 1 and n+1 fields, all but the last separator-free |
| Strings.JoinSplit | bot.py:2843 | joining the fields of a split with the separator restores the string |
| Strings.SplitJoin | bot.py:2843 | splitting separator-free fields joined by the separator gives the fields back |
| Strings.SplitLines | bot.py:2833 | `str.splitlines()`: no line contains a line-break character |
| Strings.SplitLinesBreak | bot.py:2833 | `splitlines()` ends a line at every line-break character, a lone `\r` included |
| Strings.SplitLinesCrLf | bot.py:2833 | `splitlines()` treats `\r\n` as one break, not two |
| Strings.SplitLinesJoin | bot.py:2833 | break-free lines joined by "\n" (last one non-empty) split back into the same lines |
| Strings.Words | bot.py:652 | `str.split()`: every word is non-empty and whitespace-free |
| Strings.WordsSplitAtSpace | bot.py:652 | `split()` cuts at any whitespace character: the words around it are the words of each side |
| Strings.WordsJoin | bot.py:652 | whitespace-free words joined by single spaces are split back into the same words |
| Strings.NatToStringValue | bot.py:2846 | the digits `str(n)` writes read back as `n` |
| Strings.ParseInt | bot.py:652 | `int(tok)` succeeds exactly on an optional sign followed by digit groups with single underscores between digits |
| Strings.ParseIntOfNat | bot.py:652 | `int(str(n)) == n` |
| Strings.ParseIntOfInt | bot.py:652 | `int(str(i)) == i` for every integer, negative ones included |
| Strings.ParseIntPlus | bot.py:652 | `int("+" + s)` reads the same as `int(s)` for an unsigned `s` |
| Strings.ParseIntLeadingZero | bot.py:652 | a leading `0` before digit groups does not change the value |
| Strings.ParseIntUnderscore | bot.py:652 | an underscore between two digit groups is ignored |
| Strings.Lower | bot.py:2917 | `lower()`: same length, each ASCII letter lower-cased |
| Strings.ReplaceChar | bot.py:256 | after `replace(c, rep)` with `c` not in `rep`, `c` no longer occurs, and no new characters appear except from `rep` |
| Strings.ReplaceCharAbsent | bot.py:652 | replacing a character that does not occur changes nothing |
| Parsers.Collect | bot.py:2833-2846 | the entries kept from a list of lines are at most as many as the lines |
| Parsers.CollectAppend | bot.py:2833-2846 | the entries of `a + b` are those of `a` followed by those of `b`: input order is kept |
| Parsers.CollectRendered | bot.py:2833-2846 | lines that each parse to their value collect back to the list of values |
| Parsers.ParseProxyLine | bot.py:2834-2846 | one proxy line: skip blank, `#` and short lines, strip the four fields, demand a digit port and non-empty host, login and password; `ProxyLineAccepted` states exactly which lines it keeps and what it reads |
| Parsers.ProxyLineAccepted | bot.py:2834-2846 | a proxy line is kept exactly when it is no blank or `#` line, has at least 4 fields, non-empty stripped host, login and password, and an all-digit stripped port; the entry is then the stripped host, the port's value, the stripped login and the stripped rest after the third colon |
| Parsers.CollectLines | bot.py:2832-2847 | the shared loop: walking the lines and appending each accepted entry yields exactly the entries of the accepted lines, in input order |
| Parsers.ParseProxyLines | bot.py:2824-2847 | returns exactly the entries of the accepted lines, in order, at most one per line |
| Parsers.ParseProxyLineOf | bot.py:2837-2846 | a stripped line whose fields are host, digits, login and a rest is read as that entry, the rest (colons included) being the password |
| Parsers.ProxyLineRoundTrip | bot.py:2837-2846 | `host:port:login:password` with colon-free host and login parses back to exactly that entry, even when the password holds colons |
| Parsers.ProxyBlockRoundTrip | bot.py:2824-2847 | well-formed entries written one per line parse back to the same list |
| Parsers.ParseCredentialLine | bot.py:2793-2802 | one account line: skip blank, `#` and colon-free lines, split at the first colon, strip both pieces, keep them when both are non-empty; `CredentialLineAccepted` states this as an iff |
| Parsers.CredentialLineAccepted | bot.py:2793-2802 | a line is kept exactly when, stripped, it is no blank or `#` line, holds a colon, and the stripped text before and after its first colon is non-empty; the credential is then those two stripped pieces, the email colon-free |
| Parsers.ParseLinesOne | bot.py:2785-2803 | returns exactly the credentials of the accepted lines, in order |
| Parsers.CredentialLineRoundTrip | bot.py:2797-2802 | `email:password` splits at the first colon only: the password may hold colons and is read back intact |
| Parsers.CredentialBlockRoundTrip | bot.py:2785-2803 | well-formed credentials written one per line parse back to the same list |
| Parsers.ParseNamedLine | bot.py:2813-2821 | one named account line: skip blank and `#` lines, split at the first two colons, demand three fields, strip them, keep them when email and password are non-empty; `NamedLineAccepted` states this as an iff |
| Parsers.NamedLineAccepted | bot.py:2813-2821 | a line is kept exactly when, stripped, it is no blank or `#` line, a split at its first two colons gives three fields, and the stripped email and password are non-empty; the entry is then the three stripped fields, the name possibly empty |
| Parsers.ParseLinesMany | bot.py:2805-2822 | returns exactly the named credentials of the accepted lines, in order |
| Parsers.ParseNamedLineOf | bot.py:2816-2821 | a stripped line split into email, password and name is read as that entry |
| Parsers.NamedLineRoundTrip | bot.py:2816-2821 | `email:password:name` reads back as written, with an empty name or colons in the name |
| Parsers.NamedBlockRoundTrip | bot.py:2805-2822 | well-formed named credentials written one per line parse back to the same list |
| Batches.Width | bot.py:266 | the effective batch size is at least 1 and equals `batch_size` when that is positive |
| Batches.JoinBatches | bot.py:261-270 | the buffered loop returns each group of `Width(batch_size)` consecutive lines joined by "\n" |
| Batches.Chunks | bot.py:264-269 | the reference grouping: consecutive groups of n lines, the last one possibly shorter; `ChunksFlatten`, `ChunksSizes`, `ChunksCount` and `ChunkAt` state its properties, and `JoinBatches` is proved equal to it |
| Batches.ChunksAppend | bot.py:264-267 | after a whole number of full groups the grouping continues independently |
| Batches.ChunksFlatten | bot.py:261-270 | the groups, concatenated, are exactly the input lines |
| Batches.ChunksSizes | bot.py:264-269 | no groups exactly for empty input; every group holds 1..n lines; all but the last hold exactly n |
| Batches.ChunksCount | bot.py:264-269 | the number of groups is the least c with `len(lines) <= c * n` |
| Batches.ChunkAt | bot.py:264-269 | group k is the slice `[k*n, min((k+1)*n, len))` of the input |
| Batches.JoinBatchesRoundTrip | bot.py:261-270 | for newline-free lines, splitting every message at "\n" gives back the input lines |
| Paging.CeilDiv | bot.py:420 | `ceil(total / per_page)` is the least count of pages of `per_page` items holding `total` |
| Paging.PageWindow | bot.py:420-423 | the clamped page lies in `[1, total_pages]` and equals the request when in range; `0 <= start <= end <= total`, `end - start <= per_page`, non-empty when `total > 0`; `total_pages` is minimal |
| Paging.Slice | bot.py:424 | a page shows at most `per_page` items, and at least one when the list is non-empty |
| Paging.PagesTile | bot.py:420-423 | for any page p >= 1: page 1 starts at 0, a page before the last ends where the next begins, the last ends at `total` |
| Paging.PageIsChunk | bot.py:420-424 | the number of pages equals the number of `join_batches` groups of the same size, and every page p in range shows exactly group p |
| Paging.GetByOrdinal | bot.py:290-295 | `_get_by_ordinal` returns an item exactly for `1 <= ordinal <= len(items)`, and then `items[ordinal - 1]` |
| Paging.ListedOrdinal | bot.py:426 | the number printed beside the k-th item of a page looks up that same item |
| Paging.LeftPage | bot.py:354 | `max(1, page - 1)`: the page the left arrow opens; `PagerNeighbours` bounds it |
| Paging.RightPage | bot.py:355 | `min(total_pages, page + 1)`: the page the right arrow opens; `PagerNeighbours` bounds it |
| Paging.PagerRow | bot.py:353-359 | three buttons, the middle one doing nothing (`noop`) |
| Paging.PagerNeighbours | bot.py:354-355 | for a page in range the arrows lead to pages in range: one back and one forward, staying put only at the first and last page |
| Paging.PageFromCallback | bot.py:512-513 | the third `:`-field of a callback when it is all digits, else page 1; `PageFromCallbackRoundTrip` proves it reads back the page a pager button writes |
| Paging.PageFromCallbackRoundTrip | bot.py:512-513 | the number after a `section:action:` prefix is the page the list handler reads back |
| Paging.PagerButtonsLead | bot.py:353-359 | both arrows of a pager row, read by the list handler, open the previous and next page |
| Reorder.OneTo | bot.py:653 | `list(range(1, n + 1))` holds n elements, k+1 at position k |
| Reorder.Sort | bot.py:653 | `sorted` returns an ascending permutation of its input |
| Reorder.AscendingUnique | bot.py:653 | two ascending lists with the same elements are equal |
| Reorder.SortCheck | bot.py:653 | `sorted(order) == list(range(1, n + 1))` holds exactly when order is a permutation of 1..n |
| Reorder.PermutationInRange | bot.py:655 | in a permutation of 1..n every number indexes an existing domain |
| Reorder.ParseAll | bot.py:652 | the list of integers exists exactly when every word reads as an integer, and then holds their values |
| Reorder.Pick | bot.py:655 | `[names[i - 1] for i in order]`: as many names as numbers in the order |
| Reorder.PickPermutes | bot.py:655 | rearranging by two orders with the same numbers picks the same names, each as often |
| Reorder.ParseOrder | bot.py:652 | commas become spaces, the text is split at whitespace and every word read with `int`; `ParseAll`, `CommaTextParses` and `ParseOrderText` state what it accepts |
| Reorder.Reorder | bot.py:652-655 | the reply handler: read the order, refuse it unless sorted it is `1..n`, else pick the names in that order; `ReorderAccepted`, `ReorderIsPick` and `ReorderPermutes` state its behaviour |
| Reorder.ReorderAccepted | bot.py:652-654 | the answer is accepted exactly when it reads as integers forming a permutation of 1..n |
| Reorder.ReorderIsPick | bot.py:652-655 | an accepted answer reads as a permutation of 1..n, and the new list is the names picked in that order |
| Reorder.ReorderPermutes | bot.py:655 | an accepted answer yields a list as long as the old one, with `names[order[k] - 1]` at position k, holding the same domains each as often |
| Reorder.ReorderTyped | bot.py:652-655 | typing a permutation as space-separated numbers is accepted and rearranges the list by exactly that permutation |
| Reorder.ParseOrderText | bot.py:652 | positive numbers typed separated by single spaces read back as exactly that order |
| Reorder.CommaTextWords | bot.py:652 | a permutation typed as `3, 1, 2` becomes, after commas turn into spaces, the words `3`, `1`, `2` |
| Reorder.CommaTextParses | bot.py:652 | a permutation typed with `, ` separators reads back as exactly that order |
| ImapHost.DomainOf | bot.py:2917 | without an `@` the domain is empty |
| ImapHost.ResolveImapHost | bot.py:2916-2920 | the resolved server name is never empty |
| ImapHost.DomainOfAddress | bot.py:2917 | the domain of `local@rest` is `rest` lower-cased, later `@`s included |
| ImapHost.ResolveAddress | bot.py:2918-2920 | `local@domain` gets the table's server for a listed domain, else `imap.<domain>`, else `imap.gmail.com` for an empty domain |
| ImapHost.ResolveWithoutAt | bot.py:2917-2920 | an address without `@` gets `imap.gmail.com`, the table's server for `gmail.com` |
| ImapHost.ResolveIgnoresCase | bot.py:2917 | lower-casing the address first changes neither the domain nor the server |
| Escape.EscapeText | bot.py:256 | the escaped text contains no `<` and no `>` |
| Escape.Tg | bot.py:255-256 | a missing text gives ""; the result contains no `<` or `>` |
| Escape.Code | bot.py:258-259 | the result is `<code>`, the escaped text, `</code>`, with no `<` or `>` between the tags |
| Escape.EscapeTextIsPerChar | bot.py:256 | the chained replacements equal replacing each character by its entity on its own: no entity is escaped twice |
| Escape.UnescapeEscapeEach | bot.py:256 | reading the per-character escape as HTML gives the text back |
| Escape.TgRoundTrip | bot.py:255-256 | the text a reader sees from `tg(s)` is exactly `s` |
| Escape.CodeRoundTrip | bot.py:258-259 | the text a reader sees inside `code(s)` is exactly `s` |
| Backoff.Delay | bot.py:3229 | `min(600, 2 ** min(retries, 6))` seconds; `DelayBounds` and `DelayMonotone` state its range and growth |
| Backoff.DelayBounds | bot.py:3229 | the delay is 1..64 seconds, at least 2 after a failure, doubles up to 6 failures and is 64 from then on, so it stays below the 600 cap |
| Backoff.DelayMonotone | bot.py:3229 | more failures never shorten the delay |
| Backoff.Truncate | bot.py:3234 | `s[:n]` keeps the first `min(len(s), n)` characters |
| Backoff.Succeeded | bot.py:3213-3219 | the record a successful poll writes: active, success time, no error, no failures, no retry; `SuccessResets` states its properties |
| Backoff.Failed | bot.py:3228-3237 | the record a failed poll writes from the stored failure count; `FailureBacksOff` states its properties |
| Backoff.Coherent | bot.py:3213-3237 | the invariant of every record, whoever wrote it: a pending retry, a failure count and an error go together, an error comes without a success time, and an active account has a success time and no failures |
| Backoff.SuccessResets | bot.py:3213-3219 | after a success the record has the shape a poll writes, keeps the table invariant, the failure count is 0 and the account is never backing off |
| Backoff.FailureBacksOff | bot.py:3228-3237 | after a failure the record has the shape a poll writes, keeps the table invariant, counts one more failure (so at least 1), keeps at most 300 error characters, and blocks the account until exactly `now + Delay(retries)` |
| Backoff.ReplayRetries | bot.py:3217 | the stored failure count is the number of failures since the last success, or the starting count plus the failures when there was none |
| Backoff.ReplayConsistent | bot.py:3213-3237 | every record a history of polls leaves has the shape a poll writes |
| Backoff.SwitchedOff | bot.py:3368 | `st["active"] = False` clears the flag, keeps every other field and keeps the table invariant |
| Backoff.Deactivated | bot.py:3467-3468 | stopping an account leaves an inactive record with the stored failure count and retry time, and the old outcome fields when there was a record; the table invariant is kept |
| Backoff.DeactivationKeepsSelection | bot.py:3467-3468 | stopping one account does not change which accounts the next poll round picks |
| Backoff.DeactivateAllKeepsSelection | bot.py:3365-3370 | stopping every account does not change which accounts the next poll round picks |
| Backoff.Eligible | bot.py:3272-3277 | the accounts of the round, in database order, without those whose retry time is still ahead; `EligibleMembers`, `EligibleAppend` and `EligibleAll` state its properties |
| Backoff.EligibleMembers | bot.py:3272-3277 | an account is polled exactly when it is listed and its retry time is 0 or not after now |
| Backoff.EligibleAppend | bot.py:3272-3277 | filtering distributes over concatenation, so polled accounts keep the database order |
| Backoff.EligibleAll | bot.py:3272-3277 | with no account backing off every account is polled |
| Backoff.FailedAccountSkipped | bot.py:3228-3230 | after a failure at `now` the account is skipped exactly until `now + Delay(retries)` |
| Backoff.SucceededAccountPolled | bot.py:3217-3218 | after a success the account is polled in every later round |
| Backoff.ActiveAccountPolled | bot.py:3272-3277 | in a coherent table an active account has no pending retry and is polled in every round |
| Backoff.ForgottenAccountPolled | bot.py:1292-1294 | an account whose record was dropped is polled at once when it is listed again |
| Backoff.PollStatus.RecordSuccess | bot.py:3212-3219 | the table gains the success record for the account, nothing else changes, and every record keeps the table invariant |
| Backoff.PollStatus.RecordFailure | bot.py:3226-3237 | the table gains the failure record built from the stored count, nothing else changes, and every record keeps the table invariant |
| Backoff.PollStatus.Deactivate | bot.py:1130-1131 | the account's record becomes inactive as `Deactivated` says (created if missing), nothing else changes, and the invariant holds |
| Backoff.PollStatus.DeactivateAll | bot.py:3365-3370 | every record of the table becomes inactive as `Deactivated` says, no account is added, and the invariant holds |
| Backoff.PollStatus.Forget | bot.py:1292-1294 | deleting accounts drops exactly their records, absent ones included, keeps every other record, and keeps the invariant |
| Backoff.PollStatus.SelectEligible | bot.py:3270-3277 | returns exactly the listed accounts that are not backing off, in order; in a table that keeps its invariant, every listed active account is among them |

## Left out

- `parse_proxy_lines`, `parse_lines_one` and `parse_lines_many` accept `None` as text (`text or ""`); the model's text is always a string. `tg`'s `None` case is modelled.
- Strings.Lower, Strings.ParseInt, Strings.IsDigits: `lower()`, `isdigit()` and `int()` are modelled for ASCII only. Python's `isdigit()` also accepts other Unicode digits, which `int()` may then reject.
- Paging.CeilDiv: `math.ceil(total / per_page)` uses floating-point division; the model uses exact integer division.
- Paging.GetByOrdinal: the `isinstance(ordinal, int)` check has no counterpart, because the model's ordinal is always an integer.
- Paging.PageFromCallback covers callbacks whose page is the third `:`-field (`adminui:list:`, `emails:list:`). The proxies list reads the fourth field, and the presets and smart lists demand exactly three fields; those handlers are not modelled.
- `pager_row` returns the row wrapped in a one-row keyboard; the model returns the row of three buttons.
- The presets and smart lists shrink `per_page` until their text fits (bot.py:1416-1434). That loop is not part of this model.
- Backoff.FailureBacksOff: the random jitter of up to one second is left out, and time is whole seconds instead of `time.time()` floats. The proved bound on the retry time is therefore `now + Delay(retries)` exactly.
- Backoff.PollStatus.DeactivateAll: the `except` branch of the `/stop` loop, which replaces a record that is not a dictionary by `{"active": False}`, has no counterpart: every record of the model is a record.
- Backoff.PollStatus: one user's account table is modelled. The per-user nesting of `IMAP_STATUS`, its `running`, `chat_id` and summary `last_ok` fields, and the one-time error notification (`ERROR_LOG_SENT`) are not.
- The list of active accounts comes from the database and is a parameter (`emails`). Polling itself (IMAP, SOCKS proxies, message parsing), the semaphore and the asyncio tasks are not part of this model.
- Reorder.Reorder returns `None` for the "wrong format" reply. Reading and saving the domain list in the database and the Telegram messages are not part of this model.
- Telegram UI handlers, the FSM, and persistence are not part of this model. The outbound sending campaign, the HTML page builders (`html_templates.py`, `reply_send_html.py`), recipient discovery and the silent first pass over a new mailbox's backlog are not part of this model either.
