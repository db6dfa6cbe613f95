# Telegram bot text helpers

This project models the text helpers of the knowledge-base Telegram bot
(`services/tg-bot/app/handlers.py`). They run on every `/read` reply:

- `_escape_html` escapes a page title for Telegram's HTML parse mode by
  three chained replacements: `&` becomes `&amp;`, then `<` becomes `&lt;`,
  then `>` becomes `&gt;`.
- `_strip_html` removes HTML tags from page content with the pattern
  `<[^>]+>`.
- `_split_text` cuts a reply into chunks no longer than Telegram's message
  limit (`MAX_MESSAGE_LENGTH = 4096`). It cuts before the last newline among
  the first `limit` characters, or at `limit` when there is none. Newlines
  at the start of each remainder are then stripped.

Everything is in one module, `Handlers` (`handlers.dfy`):

- `EscapeHtml` is written as the source's three chained `Replace` calls. It
  is proved equal to the per-character map `EscapeEach`. The left-to-right
  decoder `Unescape` inverts it.
- `StripHtml` is the regular-expression substitution written out as a
  left-to-right scan. A `<` whose first following `>` is not the next
  character starts a match. The match runs to that `>`. Every other
  character is kept. The declarative predicate `TagAt` says where the
  pattern matches. `TagFree` says it matches nowhere.
- `SplitText` is the source's `while` loop. `LastIndexBefore` models
  `str.rfind` and `StripLeadingNewlines` models `str.lstrip("\n")`
  (`LeadingNewlines` counts what it removes). The
  method is proved equal to the recursive specification `SplitSpec`, which
  uses `Chunks`. The ghost function `Gaps` counts the newlines dropped after
  each chunk. With it, `Rejoin` rebuilds the input exactly.
- `ReadReplyChunks` is the pure part of `/read`: header, stripped content and
  chunking.

Two behaviours of `_split_text` are kept as written:

- If the text is longer than the limit, starts with a newline, and that
  newline is the last one in the first `limit` characters, the first chunk
  is empty.
- Newlines after the last chunk are dropped. In `Gaps`, the last chunk's gap
  may be positive.

The `/read` reply always starts with `<b>`, so none of its chunks is empty
(`ReadReplyChunks`).

## Model

| member | source | states |
|---|---|---|
| `Handlers.Replace` | services/tg-bot/app/handlers.py:174 | a one-character `str.replace` adds no character that is neither in the input (other than the pattern) nor in the replacement; it is the identity when the pattern is absent |
| `Handlers.ReplaceAppend` | services/tg-bot/app/handlers.py:174 | replacement distributes over concatenation |
| `Handlers.EscapeHtml` | services/tg-bot/app/handlers.py:173-174 | the escaped text contains no `<` and no `>`; text without `&`, `<`, `>` is unchanged |
| `Handlers.EscapeHtmlIsPerCharacter` | services/tg-bot/app/handlers.py:174 | because `&` is replaced first, the three chained replacements equal escaping each character on its own |
| `Handlers.EscapeHtmlRoundTrip` | services/tg-bot/app/handlers.py:173-174 | decoding `&amp;`, `&lt;`, `&gt;` left to right recovers the original text |
| `Handlers.EscapeEachLength` | services/tg-bot/app/handlers.py:174 | escaping adds 4 characters per `&` and 3 per `<` or `>` |
| `Handlers.EscapeHtmlIdentityIff` | services/tg-bot/app/handlers.py:173-174 | escaping leaves a text unchanged if and only if it contains none of `&`, `<`, `>` |
| `Handlers.StripHtml` | services/tg-bot/app/handlers.py:177-179 | the substitution as a left-to-right scan; its own contract says the result is no longer than the input and holds only input characters, and the lemmas below (`StripHtmlSubsequence`, `StripHtmlTagFree`, `StripHtmlFixedPointIff`, `StripHtmlIdempotent`) carry the rest |
| `Handlers.IndexFrom` | services/tg-bot/app/handlers.py:179 | the result is -1 when no `c` is at or after `from`, and otherwise the first such index |
| `Handlers.TagAtHead` | services/tg-bot/app/handlers.py:179 | the scan drops a tag at the head exactly when the pattern `<[^>]+>` matches there |
| `Handlers.StripHtmlSubsequence` | services/tg-bot/app/handlers.py:177-179 | the stripped text is a subsequence of the input, no longer than it, with no character not in the input |
| `Handlers.StripHtmlTagFree` | services/tg-bot/app/handlers.py:177-179 | no match of the pattern is left in the stripped text: a kept `<` is followed directly by `>` or by no `>` at all |
| `Handlers.StripHtmlTagFreeIdentity` | services/tg-bot/app/handlers.py:177-179 | text in which the pattern matches nowhere is returned unchanged |
| `Handlers.StripHtmlFixedPointIff` | services/tg-bot/app/handlers.py:177-179 | stripping leaves a text unchanged if and only if the pattern matches nowhere in it |
| `Handlers.StripHtmlIdempotent` | services/tg-bot/app/handlers.py:177-179 | stripping twice gives the same as stripping once |
| `Handlers.StripHtmlNoOpenBracket` | services/tg-bot/app/handlers.py:177-179 | text without `<` is returned unchanged |
| `Handlers.StripHtmlPlainPrefix` | services/tg-bot/app/handlers.py:177-179 | characters before the first `<` are kept in front of the stripped rest |
| `Handlers.StripHtmlLeadingTag` | services/tg-bot/app/handlers.py:179 | a complete tag at the head of the text (`<`, at least one character other than `>`, then `>`) is removed whole |
| `Handlers.StripHtmlOfEscaped` | services/tg-bot/app/handlers.py:173-179 | stripping an escaped text changes nothing |
| `Handlers.LastIndexBefore` | services/tg-bot/app/handlers.py:191 | the last-newline search over the first `end` characters: -1 exactly when no newline is in the first `end` characters, otherwise the index of a newline with no newline after it below `end` |
| `Handlers.LeadingNewlines` | services/tg-bot/app/handlers.py:195 | the count of characters `lstrip("\n")` removes: all of them are newlines, and the character after them (if any) is not a newline |
| `Handlers.StripLeadingNewlines` | services/tg-bot/app/handlers.py:195 | `lstrip("\n")`: the remainder is no longer than the input and does not start with a newline; `StripLeadingNewlinesSplit` shows only newlines were removed |
| `Handlers.CutPos` | services/tg-bot/app/handlers.py:191-193 | the cut is at the last newline among the first `limit` characters when there is one, otherwise at `limit` |
| `Handlers.Chunks` | services/tg-bot/app/handlers.py:186-196 | the loop's chunks as a recursion on the remainder; the list is non-empty exactly when the text is; `ChunksBounded`, `ChunksOfStripped` and `ChunksRejoin` state the rest |
| `Handlers.SplitSpec` | services/tg-bot/app/handlers.py:182-196 | the result of `_split_text`: never empty, and `[text]` when the text fits; `SplitLaterChunks`, `SplitFirstChunk` and `SplitKeepsNonNewlines` state the rest |
| `Handlers.ChunksStep` | services/tg-bot/app/handlers.py:191-195 | one turn of the loop emits the cut chunk and continues on a strictly shorter stripped remainder, so the loop terminates for `limit >= 1` |
| `Handlers.SplitText` | services/tg-bot/app/handlers.py:182-196 | the loop returns the specification's chunks; a text that fits comes back as the single chunk `[text]`; the list is never empty; every chunk fits the limit |
| `Handlers.ChunksBounded` | services/tg-bot/app/handlers.py:188-194 | every chunk is at most `limit` long, and a non-empty text yields at least one chunk |
| `Handlers.ChunksOfStripped` | services/tg-bot/app/handlers.py:187-195 | once the text does not start with a newline, every chunk is non-empty and does not start with a newline |
| `Handlers.SplitLaterChunks` | services/tg-bot/app/handlers.py:187-195 | every chunk after the first is non-empty and does not start with a newline |
| `Handlers.SplitNonEmptyChunks` | services/tg-bot/app/handlers.py:182-196 | a non-empty text that does not start with a newline yields no empty chunk |
| `Handlers.SplitFirstChunk` | services/tg-bot/app/handlers.py:191-194 | the first chunk of a long text is a prefix that ends right before the last newline among the first `limit` characters, and is exactly `limit` long when there is none |
| `Handlers.ChunksRejoin` | services/tg-bot/app/handlers.py:194-195 | the chunks, each followed by the run of newlines stripped after it, concatenate back to the input |
| `Handlers.RemoveNewlinesRejoin` | services/tg-bot/app/handlers.py:194-195 | putting back runs of newlines changes nothing but newlines |
| `Handlers.SplitKeepsNonNewlines` | services/tg-bot/app/handlers.py:182-196 | with all newlines removed, the concatenated chunks equal the input: every other character is kept, in order |
| `Handlers.MaxMessageLength` | services/tg-bot/app/handlers.py:15 | the message limit 4096 that `ReadReplyChunks` passes to the split |
| `Handlers.ReadHeader` | services/tg-bot/app/handlers.py:107 | the bold, escaped title followed by a blank line; it starts with `<`, so the reply never starts with a newline; `ReadHeaderMarkup` states its markup |
| `Handlers.ReadHeaderMarkup` | services/tg-bot/app/handlers.py:107 | the reply header's only markup is the bold tag pair around the escaped title |
| `Handlers.ReadReplyChunks` | services/tg-bot/app/handlers.py:105-109 | the `/read` reply is the split of header plus tag-stripped content (missing content reads as empty); at least one message; every message non-empty and at most 4096 characters |

## Left out

- The async handlers (`start_handler`, `help_handler`, `search_handler`, `read_handler`, `similar_handler`) are left out apart from the pure part of `/read`. They send Telegram messages, call the search API over HTTP and query PostgreSQL.
- The search API (`services/search-api/app/main.py`) is left out. Ranking, hybrid score fusion and upserts happen in SQL inside PostgreSQL/pgvector. Embeddings come from an external model, and scores are rounded floats.
- The health check, the bot wiring and both configuration modules are left out. They do only I/O and environment reading.
- Handlers.SplitText: requires `limit >= 1`. With `limit == 0` the source loops forever on any text containing a character other than `\n`; the empty text and texts made only of newlines return `[""]`. A negative limit (excluded by `limit: nat`) makes the source loop forever on most texts, for example `"ab"` with -1. The only caller passes 4096.
- Lengths count characters, as Python's `len` does. Telegram's own limit counts UTF-16 code units after entity parsing, and that is not modelled.
- `StripHtml` models only the pattern `<[^>]+>` under `re.sub`, not a general regular-expression engine.
