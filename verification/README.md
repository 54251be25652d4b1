# Channel archive worker, modelled in Dafny

The worker answers chat-platform interactions. It checks the HTTP method, parses the
JSON body and verifies the Ed25519 request signature. A ping interaction gets a `{type:1}`
acknowledgement, the `ping` command gets `PONG!`, and the `archive` command runs the
archive job. That command is first gated on a role, then acknowledged at once, and the
job itself runs in the background. The job pages through a channel's history, newest
first, in pages of at most 100, stopping at an optional `limit`. It writes a markdown
transcript with the oldest message first and escapes `&`, `<` and `>` in names and texts.
For each attachment it downloads the file and points the transcript at
`attachments/<filename>`. Last, it packs `transcript.md` and the files into one zip.

This project restates that logic as pure Dafny functions over abstract inputs:

| module | file | what it models |
|---|---|---|
| `Wrappers` | wrappers.dfy | `Option`, `Result`, `Min`, `Max` |
| `Messages` | messages.dfy | messages, authors, attachment references, downloaded files |
| `Strings` | strings.dfy | `indexOf`, `replace` with a string pattern (first occurrence, with the language's `$` expansion), `join`, `reverse`, `slice` |
| `Markup` | markup.dfy | the transcript escaper and its inverse |
| `Pagination` | pagination.dfy | the paging loop over an upstream page function, the truncation to the limit, and a finite-history upstream |
| `Transcript` | transcript.dfy | header, line rendering, oldest-first assembly |
| `Attachments` | attachments.dfy | visiting order, downloads, the link rewrite |
| `Packaging` | packaging.dfy | the archive's entry map |
| `Archive` | archive.dfy | the whole `generateArchiveZip` |
| `Dispatch` | dispatch.dfy | the `fetch` handler's precedence, the role check and the `limit` option |

Some things become parameters:
- the upstream message API is a function from a request (`limit`, `before`) to a reply;
- an attachment download is a function from URL to a network failure or a response;
- the locale rendering of a timestamp is a function from string to string;
- the signature verdict is a boolean;
- the JSON parse is an optional interaction.

The paging loop has no bound of its own, so the model spends one unit of `fuel` per request.
Two lemmas show when fuel is enough. Under a positive limit, `limit` requests are always
enough (`FuelForLimit`). For a finite history whose messages have distinct, non-empty
identifiers, `|h| + 1` requests are enough (`FetchFromHistory`). An empty identifier at the
end of a full page drops the `before` parameter, so the first request repeats forever (`EmptyCursorRepeats`).

Where the code behaves differently from what one might expect, the model follows the code:
- The link rewrite replaces only the first occurrence of each URL, not all of them
  (`SecondOccurrenceSurvives`).
- The rewrite runs on the escaped transcript. A URL whose `&` starts a query parameter
  is therefore never found in an escaped message text (`QueryUrlNotRewritten`); `EscapedUrlOccurs` shows that the
  escaped URL is what would match.
- An attachment download fails the job only when the request itself fails. An error
  status is never checked, so the error body is archived as the file (`Collect`).
- A page that is not an array ends the fetch normally. A body that is not JSON fails it.
- A `before` cursor is simply the last identifier of the previous page. Pages are
  anchored correctly only when the upstream behaves like a consistent history
  (`FetchFromHistory`).

## Model

| member | source | states |
|---|---|---|
| `Strings.IndexOf` | src/index.ts:257 | the index found is the first occurrence of the pattern; `None` exactly when the pattern occurs nowhere |
| `Strings.IndexFrom` | src/index.ts:257 | a search from `from` finds the first occurrence at or after `from`, or proves there is none |
| `Strings.ReplaceFirst` | src/index.ts:257 | with no occurrence the text is unchanged; otherwise the text before and after the first occurrence is kept and only that occurrence becomes the replacement |
| `Strings.ReplaceFirstKeepsLaterOccurrence` | src/index.ts:257 | a second occurrence of the pattern after the first one still occurs, shifted, after the replacement |
| `Strings.JsReplace` | src/index.ts:257 | `replace` with a string pattern equals the literal first-occurrence replacement when the replacement has no `$`, and leaves a text without the pattern unchanged |
| `Strings.JsReplaceAt` | src/index.ts:257 | at the first occurrence the language inserts the `$`-expanded replacement, not the replacement itself |
| `Strings.SubstitutionWithoutDollar` | src/index.ts:257 | a replacement without `$` expands to itself |
| `Strings.SplitJoin` | src/index.ts:246 | joining lines without newlines by `"\n"` and splitting again gives back the same lines, one per element |
| `Strings.Reverse` | src/index.ts:239 | `reverse` keeps the length and puts element `|s|-1-i` at position `i` |
| `Strings.SliceTo` | src/index.ts:236 | `slice(0, end)` is a prefix: the first `min(end, |s|)` elements, or `|s|+end` of them for a negative `end` |
| `Markup.Escape` | src/index.ts:234-235 | the three chained global replacements, `&` first, equal the per-character substitution `&`→`&amp;`, `<`→`&lt;`, `>`→`&gt;` |
| `Markup.EscapeIsPerCharacter` | src/index.ts:234-235 | because `&` is replaced first, the entities added by the later passes are not escaped again |
| `Markup.UnescapeEscape` | src/index.ts:234-235 | escaping loses nothing: decoding the three entities gives back the input |
| `Markup.EscapeHasNoAngleBrackets` | src/index.ts:234-235 | escaped text contains no `<` and no `>` |
| `Markup.EscapeAmpersandsBeginEntities` | src/index.ts:234-235 | every `&` in escaped text begins `&amp;`, `&lt;` or `&gt;` |
| `Markup.EscapeKeepsOtherCharacters` | src/index.ts:234-235 | a character outside the entity alphabet (a newline, say) occurs in the escaped text exactly when it occurs in the input |
| `Markup.EscapedUrlOccurs` | src/index.ts:243-257 | wherever a URL occurs in a message text, its escaped form occurs in the escaped text, so the escaped URL is what a search of the transcript would have to look for |
| `Markup.UrlWithQueryNotInEscapedText` | src/index.ts:243-257 | a URL with an `&` that is not followed by `a`, `l` or `g` never occurs in escaped text |
| `Pagination.PageSize` | src/index.ts:203-210 | the loop breaks exactly when a truthy limit has been reached; otherwise it asks for `min(100, limit - fetched)` under a positive limit and 100 without one, always between 1 and 100 |
| `Pagination.PaginateDelivers` | src/index.ts:206-231 | a successful run of the loop returns the messages already held followed by every page delivered, in arrival order |
| `Pagination.Fetch` | src/index.ts:201-231 | a fetch returns the concatenated pages; a negative limit makes no request and returns nothing; without a limit, or with `0`, every request asks for 100 |
| `Pagination.RequestSizes` | src/index.ts:207-210 | each request asks for the page size decided from the number of messages delivered before it |
| `Pagination.CursorsFollowPages` | src/index.ts:211-230 | the first request carries the initial cursor, and each later request is anchored at the last message of the full page before it |
| `Pagination.StopsForAReason` | src/index.ts:207-229 | a successful fetch ends because the limit was reached, a reply was not an array, or a page was empty or short; an HTTP error is the last exchange and is the error reported |
| `Pagination.EmptyCursorRepeats` | src/index.ts:206-230 | without a limit, a full page ending in a message with an empty identifier drops the cursor, so the same first request repeats and no amount of fuel finishes the fetch |
| `Pagination.FuelForLimit` | src/index.ts:207-230 | under a positive limit the loop makes at most `limit` requests |
| `Pagination.Used` | src/index.ts:236 | the used messages are a prefix of those fetched: the first `limit` under a positive limit, all of them when the limit is absent or 0 |
| `Pagination.LimitBound` | src/index.ts:203-236 | with a positive limit at most `limit` messages are used, the first to arrive; with none or 0, all of them; with a negative limit, none |
| `Pagination.PositionOf` | src/index.ts:230 | models the upstream side of the cursor that line 230 sets: within the model's consistent history, it locates the message a `before` cursor names, or shows that no message has that identifier |
| `Pagination.HistoryRound` | src/index.ts:207-230 | against a consistent history, a full page hands over to the state holding `count` more messages with the cursor at the oldest of them, and a short or empty page ends the fetch with every message up to the end of the history |
| `Pagination.FetchFromHistoryAt` | src/index.ts:201-231 | continuing from the newest `k` messages of a history, the fetch returns exactly the newest messages the limit allows |
| `Pagination.FetchFromHistory` | src/index.ts:201-231 | a fetch from a finite history whose messages have distinct, non-empty identifiers terminates within `|h| + 1` requests and returns its newest `min(limit, |h|)` messages, or all of them without a limit, or none under a negative one |
| `Transcript.RenderAll` | src/index.ts:240-245 | one line per message, in the order given, each rendering that message with its locale time |
| `Transcript.Build` | src/index.ts:237-246 | the transcript starts with `# Channel Archive: <id>` and a blank line, and is only that with no messages |
| `Transcript.TranscriptLines` | src/index.ts:237-246 | when no field contains a newline, the body splits into exactly one line per used message, line `i` rendering the `i`-th oldest |
| `Transcript.EmptyContentLine` | src/index.ts:243-244 | a message with absent or empty content renders with an empty text field after `]: ` |
| `Attachments.AttachmentsOf` | src/index.ts:250-252 | the attachments visited are exactly those of the messages whose attachment field is an array; for one message they are its list, in its order |
| `Attachments.AttachmentsOfConcat` | src/index.ts:250-252 | the attachments of two runs of messages are those of the first run followed by those of the second, which fixes the order and the repetitions |
| `Archive.VisitedOldestFirst` | src/index.ts:236-252 | because `reverse` works in place, the attachments of older used messages are visited before those of newer ones |
| `Archive.VisitedStartsWithOldest` | src/index.ts:236-252 | the first attachments visited are those of the oldest used message, in their listed order |
| `Attachments.Rewrite` | src/index.ts:250-260 | the attachments are applied in visiting order, each replacing the first occurrence of its URL; whenever no file name contains `$`, this equals the language's own fold of `replace` (`JsRewrite`) |
| `Attachments.JsRewriteStep` | src/index.ts:257 | the language's rewrite step equals the literal first-occurrence replacement whenever the file name has no `$` |
| `Attachments.RewriteWithoutUrls` | src/index.ts:250-260 | a transcript in which no attachment URL occurs is left unchanged |
| `Attachments.RewriteOne` | src/index.ts:257 | one rewrite keeps the text around the first occurrence and puts `attachments/<filename>` in its place |
| `Attachments.SecondOccurrenceSurvives` | src/index.ts:257 | a URL quoted twice still occurs after its rewrite |
| `Attachments.JsDollarStep` | src/index.ts:257 | for a file named `$&` the language's rewrite writes `attachments/` followed by the matched URL |
| `Attachments.DollarFilenameExpanded` | src/index.ts:257 | for a file named `$&` and a transcript that is its URL `U` (any non-empty URL other than `$&`), the language yields `attachments/U` while the literal rewrite yields the entry name `attachments/$&`, and the two differ |
| `Attachments.QueryUrlNotRewritten` | src/index.ts:243-257 | the rewrite leaves escaped text unchanged for a URL carrying a query string |
| `Attachments.Collect` | src/index.ts:250-255 | the collection succeeds exactly when every download gets a response, any status; it yields one file per attachment in order, named as declared, holding the body received; otherwise it reports the first failing URL |
| `Packaging.Entries` | src/index.ts:263-268 | the keys are exactly `transcript.md` plus `attachments/<name>` per file; `transcript.md` holds the transcript; each name holds the data of the last file with that name |
| `Packaging.AddFilesSpec` | src/index.ts:266-268 | adding files in order adds one key per name, keeps other keys, and lets a later file with the same name overwrite an earlier one |
| `Archive.Generate` | src/index.ts:194-270 | a failed fetch fails the archive with that error; after a successful fetch the archive succeeds exactly when every visited attachment downloads; its keys are `transcript.md` and one per visited attachment name |
| `Archive.ArchiveOfHistory` | src/index.ts:194-270 | against a finite history whose messages have distinct, non-empty identifiers, the archive succeeds and renders exactly the newest `limit` messages (all of them without a limit), oldest first, links rewritten; when no visited file name contains `$`, `transcript.md` is exactly what the language's `replace` loop produces |
| `Dispatch.ToUpper` | src/index.ts:11 | upper-casing keeps the length and maps exactly the ASCII letters `a`-`z` to `A`-`Z` |
| `Dispatch.LimitOption` | src/index.ts:111-112 | the limit is the value of the first option named `limit` when that value is a number, and absent otherwise |
| `Dispatch.FindLimit` | src/index.ts:111 | `find` returns the first option named `limit`, and only its value counts |
| `Dispatch.HandleArchive` | src/index.ts:95-124 | the job is accepted exactly when the member holds the required, non-empty role (non-array roles count as none), with the channel, the requested limit and the token; a missing member is a fault |
| `Dispatch.Handle` | src/index.ts:11-82 | 405 exactly for a non-POST method; then 400 exactly for unparsable JSON; then 401 exactly when a signature header or the timestamp header is missing or empty, or the signature is invalid; then type 1 gives the acknowledgement, `ping` gives `PONG!`, `archive` goes to its handler, and everything else gives 204 |
| `Dispatch.UnauthenticatedIgnoresInteraction` | src/index.ts:40-52 | a request failing the signature check gets 401 whatever its interaction contains |
| `Dispatch.ArchiveNeedsRole` | src/index.ts:69-112 | an authentic `archive` command from a member starts a job exactly when the role is held, with the requested limit, and is refused otherwise |

## Left out

- The Ed25519 check (`verifyKey`) is a foreign library. Its verdict is the boolean `verified`.
- `JSON.parse` is an input: the body is an interaction or unparsable. A body that parses to
  `null` is left out; reading `type` from it would throw.
- `zipSync` and `strToU8` belong to a compression library. Only the entry map is modelled,
  with the transcript as text.
- The background block (src/index.ts:126-189) is network I/O and concurrency, so it is left out.
  This covers the channel-name lookup, the upload, the follow-up webhooks,
  `ctx.waitUntil` and the try/catch notification. Their response statuses are never checked.
- `new Date(...).toLocaleString()` depends on locale and clock. It is the `localTime` parameter.
- Console logging, and the exact wording and emoji of user-facing messages, are left out.
- `toUpperCase` is modelled on ASCII only. Non-ASCII case mapping is not part of this model.
- Non-integer limits are left out; a fractional limit would ask for a fractional page size.
  Numbers are integers here.
- Fields that are missing or of the wrong type are left out. For example, an undefined
  `username` renders as `undefined`, and `options` may not be an array. An absent message
  `id` is modelled by the empty identifier, which, like `undefined`, drops the `before` parameter.
- Pagination.Paginate: bounded by `fuel`, which the source does not have. When an upstream
  keeps sending full pages forever, the source never stops, while the model returns
  `OutOfFuel`. `FuelForLimit` and `FetchFromHistory` give fuel bounds that always suffice.
- Archive.Generate: rewrites links with the literal `Attachments.Rewrite`, the corrected
  half of the finding below. The source's `replace` expands `$&`, `` $` ``, `$'` and `$$` in a
  file name. The two agree whenever no visited file name contains `$` (`Rewrite`'s contract).
- Archive.ArchiveOfHistory: pins `transcript.md` to the literal rewrite. It states the source's
  own result only when no visited file name contains `$`, for the same reason.

## Findings

| source | as written | input that shows it | evidently intended | confidence | as-written member | corrected member |
|---|---|---|---|---|---|---|
| src/index.ts:257 | `md.replace(a.url, "attachments/" + a.filename)` passes the file name through the language's replacement patterns, so `$&`, `` $` ``, `$'` and `$$` in a file name are expanded | file name `$&`, URL `U`, transcript text `U`: the result is `attachments/U`, while the archive entry is `attachments/$&` | the literal path `attachments/<filename>`, matching the entry name | medium; not executed | `Attachments.DollarFilenameExpanded` | `Attachments.RewriteOne` |

The archive model (`Archive.Generate`) uses the literal rewrite `Attachments.Rewrite`. The
language's behaviour is kept in `Strings.JsReplace`, `Attachments.JsRewriteStep` and the loop
`Attachments.JsRewrite`. These agree with the literal rewrite for every file name without `$`.
