# A verified model of the technical-assistant chat bot

`bot.js` is a WhatsApp bot that answers questions about technical manuals. When
the chat client is ready it reads every PDF in its `pdfs` directory into one
knowledge context. Then, for every message whose body starts with the command
`!ia` (in any case), it asks a Gemini model the rest of the message. The context
is passed as the system instruction.

This project models the four pieces of that file that are pure decision logic:

- **Command dispatch** (`Commands`). A message body becomes `Ignore`,
  `EmptyArgument` or `Command(question)`. The prefix test lower-cases the body.
  The question is the body without its first three characters, trimmed the way
  ECMAScript's `trim` does it.
- **Knowledge ingestion** (`Knowledge`). The directory is filtered to names whose
  `path.extname`, lower-cased, is `.pdf`. The per-file extraction results are
  folded in listing order: a failed file is skipped and a successful one
  appends its text and a blank line. The result is either the fixed placeholder
  or the preamble, a blank line and the combined text. The 'ready' handler
  swallows an exception from `mkdir` or `readdir`, leaving the store as it was.
- **Answer selection** (`Answers`). An unloaded store (the empty string) gets
  the fixed not-loaded text and no model request. Otherwise one request is
  issued; a success is returned verbatim and a failure becomes the fixed apology.
- **The per-message handler** (`Handler`). A message becomes the ordered list of
  its effects: replies sent and model requests issued.

The outside world is passed in as data:

- the directory as a `Directory` value: access failed (and `mkdir` then failed
  or not), or the listing (or its failure);
- reading and extracting one file as a function from entry name to `Result`;
- the model service as a function from `Request` to `Result`.

Shared modules: `Results` (Option and Result) and `Text` (ASCII lower-casing,
ECMAScript `trim`, prefix test, `path.extname`).

Two behaviours of the code are easy to misread, and the model follows the code in both:

- The prefix test is case-insensitive (`toLowerCase().startsWith`), not a
  case-sensitive token match. `!IA x` is a command, and so is `!iax`, with question `x`.
- A command against an unloaded store draws two replies, the acknowledgement
  and then the not-loaded text, not one. The acknowledgement is sent before
  `generateAnswer` is called.

ASCII lower-casing is exact for both tests the code makes with it. A body's
Unicode lower-case form starts with `!ia` iff its first three characters are `!`,
`i`/`I` and `a`/`A`: the only other character that lower-cases to `i` is U+0130,
and it expands to `i` followed by U+0307, not `a`. The same holds for `.pdf`: no
non-ASCII character lower-cases to `.`, `p`, `d` or `f`. The first three
characters of a command are in the Basic Multilingual Plane, so JavaScript's
`substring(3)` on UTF-16 code units cuts the same place as Dafny's `[3..]` on
characters.

## Model

| member | source | states |
|---|---|---|
| Text.Trim | bot.js:132 | the trimmed body is a contiguous piece of its input, only whitespace (the ECMAScript WhiteSpace and LineTerminator set) is cut from either end, it starts and ends with non-whitespace, and it is empty iff the input is all whitespace |
| Text.TrimUnique | bot.js:132 | any two strings that are trims of the same input are equal, so the characterisation above pins down `trim` |
| Text.TrimIdempotent | bot.js:132 | trimming a trimmed question changes nothing |
| Text.TrimmedStart | bot.js:132 | the front cut of `trim` removes only whitespace and stops at the first non-whitespace character |
| Text.TrimmedEnd | bot.js:132 | the back cut of `trim` removes only whitespace and stops after the last non-whitespace character |
| Text.TrimCuts | bot.js:132 | any trim of a string cuts exactly where the front and back cuts are, and is empty iff the string is all whitespace |
| Text.ExtName | bot.js:39 | `path.extname` of an entry name is empty or a suffix of the name that starts with its only dot, and is shorter than the name; it is empty exactly when the name is `..` or has no dot after its first character |
| Commands.PrefixTestIsTriggers | bot.js:128 | the lower-cased body starts with `!ia` iff its first three characters are `!`, `i` or `I`, `a` or `A` |
| Commands.Argument | bot.js:132 | the question is the trim of the body after its first three characters, and is empty iff that rest is all whitespace |
| Commands.Classify | bot.js:125-137 | a body is ignored iff it is absent or fails the prefix test; it is an empty argument iff it passes and the rest is all whitespace; otherwise the command carries a non-empty question that is the trim of the rest |
| Commands.CommandOfArgument | bot.js:128-137 | a body that passes the prefix test and has non-whitespace after the prefix is a command carrying its argument |
| Commands.QuestionIsTrimmedPiece | bot.js:132 | a command's question is a contiguous piece of the body after the prefix, non-empty, with no whitespace at either end |
| Commands.ArgumentOfTrimmed | bot.js:132 | a rest with non-whitespace at both ends is the question unchanged |
| Commands.ClassifyGlued | bot.js:128-132 | `!iax` is a command with question `x`, so there is no word-boundary check |
| Commands.ClassifyUpperCase | bot.js:128-132 | `!IA x` is a command with question `x` |
| Commands.ClassifyBlank | bot.js:134-137 | `!ia` followed by spaces is an empty argument |
| Commands.ClassifyIndented | bot.js:128-130 | a body with a space before the prefix, and an absent body, are ignored |
| Knowledge.IsPdf | bot.js:39 | a name is eligible iff it ends in `.pdf` in any letter case and has at least one character before that dot |
| Knowledge.IsPdfIff | bot.js:39 | the lower-cased `path.extname` of a name is `.pdf` iff the name ends in `.pdf` in any letter case and has at least one character before that dot |
| Knowledge.IsPdfUpperCase | bot.js:39 | `manual.PDF` is eligible |
| Knowledge.IsPdfLastExtension | bot.js:39 | `a.b.pdf` is eligible and `notes.pdf.txt` is not |
| Knowledge.IsPdfNeedsStem | bot.js:39 | a bare `.pdf` and a plain `pdf` are not eligible |
| Knowledge.Filter | bot.js:39 | a name is kept iff it is in the listing and the filter accepts it; a one-entry listing is kept whole or dropped, so with `FilterAppend` each accepted entry is kept exactly once, in listing order |
| Knowledge.PdfFiles | bot.js:39 | a name is among the PDF files iff it is in the listing and is eligible; a one-entry listing gives itself if eligible and nothing otherwise |
| Knowledge.FilterAppend | bot.js:39 | filtering keeps listing order: the filter of two concatenated listings is the concatenation of their filters |
| Knowledge.Accumulate | bot.js:48-59 | the loop's combined text is exactly the texts of the files that extract successfully, in listing order, each followed by a blank line |
| Knowledge.AccumulateAppend | bot.js:48-59 | processing two runs of files in sequence concatenates their combined texts |
| Knowledge.SkipFailed | bot.js:51-58 | a file whose read or extraction fails contributes nothing, and the files after it are still processed |
| Knowledge.KeepSucceeded | bot.js:52-54 | a successful file contributes its text and a blank line, between the texts of the files before and after it |
| Knowledge.AllFailed | bot.js:48-59 | when every file fails, the combined text is empty |
| Knowledge.Loaded | bot.js:61 | the context built from documents is neither the placeholder nor empty; it is the preamble, then the blank line, then the combined text, each read back from its place |
| Knowledge.LoadedIsNotPlaceholder | bot.js:43-61 | a context built from documents never equals the placeholder, even with an empty combined text |
| Knowledge.GetKnowledgeContext | bot.js:27-63 | the ingestion fails exactly when `mkdir` or `readdir` fails; it gives the placeholder exactly for a created directory or a listing with no eligible name; otherwise it gives the preamble, a blank line and the blocks of every successful eligible file; a completed ingestion never leaves the store empty |
| Knowledge.OnReady | bot.js:116-123 | after the 'ready' handler the store holds exactly the completed ingestion's context, which is not empty, or is unchanged when the ingestion threw |
| Knowledge.NeverPartial | bot.js:48-61 | the store after ingestion is its old value, the placeholder, or the context of all eligible files, never a partial concatenation |
| Knowledge.AllFailedIsBarePreamble | bot.js:41-61 | if there are eligible files and all of them fail, the store becomes the preamble and a blank line, which is not the placeholder |
| Answers.GenerateAnswer | bot.js:70-88 | an unloaded store gives the not-loaded text and no request; otherwise exactly one request naming the model, the question and the store; a success is returned verbatim and a failure gives the apology |
| Answers.UnloadedIgnoresModel | bot.js:71-73 | with an unloaded store the answer does not depend on the model at all |
| Answers.LoadedDependsOnResponse | bot.js:75-83 | with a loaded store the answer depends on the model only through its response to the one request |
| Answers.AnswerOrigin | bot.js:70-87 | every answer is the not-loaded text, the apology, or the model's own response to the request |
| Answers.EmptyAnswerComesFromModel | bot.js:70-87 | an empty answer can only be the model's own empty response |
| Handler.Respond | bot.js:141-146 | a command's effects start with the acknowledgement and end with the answer reply |
| Handler.OnMessage | bot.js:125-147 | a message has no effect iff it is not a command; an empty argument draws exactly the ask-for-a-question reply; a command draws the response to its question |
| Handler.RespondShape | bot.js:141-146 | a response has exactly two replies, the acknowledgement and then the answer; it issues one request when the store is loaded and none otherwise, and any request lies strictly between the two replies |
| Handler.CommandShape | bot.js:125-147 | a body that passes the prefix test with non-whitespace after the prefix draws the acknowledgement and then the answer as its only replies, a request only when the store is loaded, and any request strictly between the two replies |
| Handler.UnloadedStillAcknowledges | bot.js:141-143 | a command against an unloaded store draws the acknowledgement and then the not-loaded text, and nothing else |
| Handler.LoadedAnswer | bot.js:141-146 | against a loaded store a command draws three effects: the acknowledgement, the request, and the model's text verbatim or the apology |
| Handler.ReplyCount | bot.js:128-146 | a message draws no reply iff it is absent or fails the prefix test, one iff it passes with only whitespace after the prefix, and two iff it passes with something else after it |
| Handler.AfterIngestion | bot.js:116-143 | when the directory is created or listed the ingestion completes, and afterwards every question issues exactly one request, grounded on the ingested context |
| Handler.FailedIngestion | bot.js:118-122 | if the ingestion throws while the store is unloaded, every command draws the acknowledgement and the not-loaded text, and no request |

## Left out

- The WhatsApp client: its construction, QR display, browser options,
  `auth_failure` and `disconnected` logging, and `client.initialize()`. These
  are library wiring and I/O.
- The `API_KEY` check with `process.exit`, and loading `.env`. These are
  process configuration.
- Real filesystem calls. "Access failed", the listing and each file's
  read-plus-extract are inputs. Creating the directory is not modelled
  beyond whether `mkdir` fails.
- The internals of `pdf-parse` and the Gemini network call. They are opaque
  `Result` values. A response whose `text` is undefined is not modelled: a
  successful response always carries a string.
- Text.ExtName: models `path.extname` only for names without `/`, which is
  what `readdir` returns. Trailing-separator handling is not modelled.
- Text.Lower: ASCII only, not `toLowerCase` in general. The two properties the code
  relies on are stated by `Commands.PrefixTestIsTriggers` and `Knowledge.IsPdfIff`,
  and they are exact (see above).
- Logging and the ANSI colour codes.
- Concurrent message handlers interleaving, and a re-ingestion overlapping
  them. One message is modelled against a fixed store.
- Whether `msg.reply` calls are delivered in the order they are made. They
  are not awaited, and the model records the order in which they are issued.
