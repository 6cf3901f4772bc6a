# wikipedia-rag core in Dafny

A model of the decision and string logic of `main.go`, a command-line
question-answering program. For each question it searches Wikipedia, fetches
the introductory extract of every title found, and builds a context out of
them, one numbered block per article. It then asks an Ollama model to answer
from that context and prints the answer with surrounding white space removed.

Every remote call is replaced by its outcome, given as input. A search is an
error or a list of titles. Each title is paired with the outcome of fetching
its extract (`Pipeline.Hit`). Generation is an error or the model's reply
(`Pipeline.Remote`). A Go error is carried as the text `%v` prints for it.
Strings are byte sequences (`Text.Bytes`), because Go's `len` and slicing
count bytes.

Modules:

- `Text` (text.dfy): the parts of `strings.TrimSpace`, `strings.ToLower` and
  `%d` that the program relies on.
- `Wikipedia` (wikipedia.dfy): what `searchWikipedia` and
  `getWikipediaContent` do with a response once it is parsed.
- `Pipeline` (pipeline.dfy) covers `performRAG`:
  - truncation of extracts;
  - the context-building loop over the titles;
  - the prompt template;
  - the outcome of one question, including which remote calls it makes.
- `Console` (console.dfy): the input loop of `main`, which classifies each
  line and runs the pipeline for every question until "exit" or end of input.

The three loops of the program are methods:
- `Wikipedia.ExtractTitles`, whose ensures state its result element by element;
- `Pipeline.AssembleContext`, proved equal to the recursive `Pipeline.ContextOf`;
- `Console.Session`, proved equal to the recursive `Console.Questions` and `Console.RunsOf`.

A Go `strings.Builder` is a local sequence variable. Lemmas then state the
properties of those specification functions:
- the context is exactly the numbered blocks of the successful retrievals;
- the context fits a size bound;
- questions after "exit" are never asked.

## Model

| member | source | states |
|---|---|---|
| Text.TrimSpace | main.go:243 | the result is a contiguous part of the input, everything before and after it is white space, and it neither starts nor ends with white space |
| Text.TrimSpaceEmpty | main.go:243-247 | a line trims to the empty string exactly when it is all white space |
| Text.TrimSpaceIdempotent | main.go:216 | trimming an already trimmed string changes nothing |
| Text.ToLower | main.go:249 | same length; no upper-case ASCII letter remains; each byte is kept or is an upper-case letter shifted to its lower-case form |
| Text.Decimal | main.go:197 | the `%d` text of an article number is a non-empty string of digits without a leading zero |
| Text.DecimalRoundTrip | main.go:197 | reading back the printed digits gives the number, so a block's label identifies its number |
| Wikipedia.ExtractTitles | main.go:86-89 | one title per search entry, same count, same order |
| Wikipedia.SelectPage | main.go:132-136 | fails with "no content found" exactly when there are no pages; otherwise returns the extract of some page in the response |
| Wikipedia.Min | main.go:265-270 | the result is one of the two arguments and no larger than either |
| Wikipedia.BodySnippet | main.go:83 | the quoted body is a prefix of at most 200 bytes: the whole body when it is short enough, exactly 200 bytes otherwise |
| Pipeline.Truncate | main.go:193-195 | at most 1000 bytes (1000 included): unchanged; above 1000: the first 1000 bytes followed by "...", 1003 bytes in all |
| Pipeline.TruncateIdempotent | main.go:193-195 | truncating a truncated extract changes nothing |
| Pipeline.BlockShape | main.go:197 | a block is the label with the article number, then title, " ---\n" and the truncated content; its length is 21 bytes of format plus the digits, the title and at most 1003 content bytes |
| Pipeline.AssembleContext | main.go:183-198 | the loop asks for every title in order and builds exactly the context `ContextOf` of the hits |
| Pipeline.Succeeded | main.go:184-190 | lists exactly the positions whose retrieval succeeded |
| Pipeline.SucceededIncreasing | main.go:184-190 | the successful positions are listed in search order |
| Pipeline.ContextIsBlocks | main.go:184-198 | the context is the concatenation of one block per successful retrieval, in search order; failed retrievals contribute nothing |
| Pipeline.BlockNumbers | main.go:184-197 | block numbers strictly increase along the context |
| Pipeline.BlockRank | main.go:184-197 | every block, the last included, carries a number at least its 1-based rank among the blocks: numbers are positions in the whole search list, not counts of successes |
| Pipeline.BlockGap | main.go:184-197 | every search position strictly between the numbers of two consecutive blocks is one whose retrieval failed |
| Pipeline.NoSuccessEmptyContext | main.go:183-198 | with no successful retrieval the context is empty |
| Pipeline.ContextWithinBudget | main.go:193-197 | the context is no longer than the sum, over successful retrievals, of the per-block bound |
| Pipeline.ContextBound | main.go:193-197 | with titles of at most `maxTitle` bytes, the context is at most one worst-case block per successful retrieval |
| Pipeline.BuildPrompt | main.go:200-207 | the prompt starts with the fixed opening and the question verbatim, contains "Context:\n" followed by the context verbatim, ends with "Answer:", and has the fixed total length |
| Pipeline.PromptDeterminesInputs | main.go:200-207 | two prompts are equal only when built from the same question and context (given the question's length) |
| Pipeline.RagRun | main.go:170-218 | a search error is reported with its prefix and nothing is fetched or generated; no titles gives "no Wikipedia results found" with nothing fetched or generated; otherwise every title is fetched in order and the model receives the prompt over the assembled context; a generation error is reported with its prefix; success is the trimmed answer |
| Pipeline.PerformRag | main.go:170-218 | step-by-step `performRAG` behaves as `RagRun` |
| Pipeline.GeneratesWithoutContent | main.go:183-210 | when titles are found but every retrieval fails, the model still receives a prompt, with an empty context |
| Pipeline.AnswerTrimmed | main.go:216 | a successful answer neither starts nor ends with white space |
| Pipeline.TwoArticles | main.go:183-198 | two short successful retrievals give the blocks numbered 1 and 2 in order, without the truncation marker |
| Pipeline.FirstOfTwoFails | main.go:184-197 | when the first of two retrievals fails, the context is the second block alone, still numbered 2 |
| Console.ExitSpellings | main.go:249 | a trimmed line means "exit" exactly when it is the four letters e, x, i, t, each in either case |
| Console.Classify | main.go:243-252 | a line is skipped exactly when it is all white space; it stops the loop exactly when it is not, and trims to "exit" in any case; otherwise its question is the trimmed line, non-empty and not "exit" |
| Console.Questions | main.go:237-257 | at most one question per input line |
| Console.QuestionsWellFormed | main.go:243-254 | every question handed to the pipeline is trimmed, non-empty, not "exit", and is the trimmed form of some input line |
| Console.QuestionsAppend | main.go:237-257 | lines that do not stop the loop add their questions in order, and the lines after them add theirs |
| Console.QuestionsStopAtExit | main.go:249-252 | no line after the first "exit" line contributes a question |
| Console.RunsOf | main.go:254-256 | one run per question |
| Console.RunsOfAt | main.go:254-256 | the k-th run is the pipeline on the k-th question, whatever became of the earlier ones |
| Console.Session | main.go:237-257 | the loop asks exactly `Questions(lines)`, in order, and runs the pipeline once for each |

## Left out

- HTTP requests, URL encoding, request headers, status codes and reading
  response bodies in `searchWikipedia`, `getWikipediaContent` and
  `queryOllama`. Only the outcome of each call is modelled, as an input.
- JSON encoding and decoding. The parsed structures are taken as given, and a
  failed parse becomes an error outcome.
- `queryOllama` does not check the HTTP status; any reply that parses counts
  as an answer. The model takes the generation outcome as given, so this is
  not observable here.
- `Wikipedia.SelectPage`: Go visits a map in no defined order, so which page
  wins when there are several is an arbitrary choice (`:|`). No rule is
  invented.
- `Text.TrimSpace`: only the ASCII white space (tab, line feed, vertical tab,
  form feed, carriage return, space). Go also trims U+0085, U+00A0 and the
  other Unicode white space.
- `Text.ToLower`: only ASCII letters. Go also lower-cases non-ASCII letters;
  for example U+0130 becomes 'i', so Go would also accept "EXİT" as
  "exit" while `Console.IsExit` does not.
- Console output, the progress and error messages, and the "Goodbye!" line.
  The model records the outcome of each question instead of its printout.
- `bufio.Scanner`: every input line is given as a byte sequence. Its line
  splitting, carriage-return stripping, 64 KiB token limit and the final
  `scanner.Err()` check with `os.Exit(1)` are not part of this model.
- Parsing the `--model` argument from `os.Args`: the model name is a
  parameter.
- The model follows main.go where a reader might expect otherwise:
  - truncation counts bytes, not characters;
  - there is no fallback to an empty-context prompt when the search finds
    no titles;
  - a generation reply is not checked for its status.
