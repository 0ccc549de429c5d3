# fastask core, modelled in Dafny

fastask is a command-line assistant. It takes a question from the command line and sends it
either to a hosted chat-completion API (mode `OPENAI`) or to a local `ollama` model
(mode `LOCAL`). It streams back the answer and keeps a rolling history of recent
question/answer pairs in a temporary text file. This project models the logic of
`fastask/ask.py` that does not depend on the outside world:

- **The history file** (`history.dfy`, module `History`). Class `HistoryFile` has a
  `present` flag (whether the file exists) and its `content`. Its methods model
  `add_to_history`, `get_last_n_history` and `clear_history`. A reader sees the file as
  *blocks*: `content.split("\n\n")[:-1]`. Adding a record appends
  `"Question: q\nAnswer: a\n\n"`. If the file then holds more than 10 blocks, it is
  rewritten as `"\n\n".join(blocks[1:]) + "\n\n"`.
- **Splitting and joining on blank lines** (`text.dfy`, module `Text`). This is Python's
  `str.split("\n\n")`: leftmost, non-overlapping occurrences. It also covers
  `str.join`. **Python slicing** (`slices.dfy`, module `Slices`) covers `xs[start:]` and
  `xs[-n:]`, including `n == 0` (the whole list) and negative `n`.
- **Configuration** (`config.dfy`, module `Configuration`). This models
  `is_openai_configured` and `is_configured` over a section → option → value map, with
  `KeyError` and the implicit `None` return as explicit outcomes. It also models the
  effect of `config_mode` on that map (class `ConfigStore`).
- **Requests** (`prompts.dfy`, module `Prompts`). This is the chat-message list of
  `use_openai` and the `ollama run` argument vector of `use_local`.
- **Answering paths** (`answering.dfy`, module `Answering`). These are `use_openai` and
  `use_local`, with their two stream-collecting loops.
- **Routing** (`cli.dfy`, module `Cli`). This is the decision `main` takes (usage exit,
  `--reset`, setup when unconfigured, dispatch by mode), plus a method `Invoke` that
  performs one whole invocation against the two stores.

The central fact about the file format is `Text.SplitPieces`. Every piece of a split
except the last holds no blank line and does not end with a newline (such a piece is
*Clean*). From it follows `History.BlocksAppend`: appending text never changes a file's
complete blocks, only its trailing piece. So for questions and answers that are Clean,
each `add_to_history` adds exactly one block. After N additions to an empty file the
history holds the `min(N, 10)` most recent entries (`History.ReplayKeepsMostRecent`).
Counting blocks needs less: the question must be Clean, and the answer must only be free
of blank lines. It may end with a newline, as a child process's output usually does.
Under that condition every addition still adds one block (`History.AppendCountsOneBlock`).
The cap of 10 is then an invariant (`History.AddKeepsCapacity`), and N additions leave
`min(N, 10)` blocks (`History.ReplayCount`).

The block format does not hold up when an answer contains a blank line. Such an answer
reads back as several blocks, and the trim still drops exactly one block, so the file
can then hold more than 10 blocks. `History.MultiParagraphAnswerExceedsCapacity`
exhibits this. This is the source's behaviour, and the model keeps it. The comments at
`fastask/ask.py:161` and `fastask/ask.py:166` describe the check as "more than 10
entries" and the rewrite as deleting "the oldest entry". The code removes exactly one
block per call, and the model follows the code. Reading back the exact entry
(`History.AddThenReadLast`) needs more again: the answer must not end with a newline.
Otherwise the final newline joins the separator, the split point moves by one, and the
newline starts the next block instead.

## Model

| member | source | states |
|---|---|---|
| `Slices.LastN` | fastask/ask.py:180 | `blocks[-n:]`: the last min(n, len) blocks for n ≥ 1, all blocks for n = 0, all but the first -n for n < 0 |
| `Text.Split` | fastask/ask.py:164 | `split("\n\n")` always yields at least one piece, and the first piece is a prefix of the text |
| `Text.JoinSplit` | fastask/ask.py:164 | joining the pieces of a split with `"\n\n"` gives back the original text |
| `Text.SplitPieces` | fastask/ask.py:179 | no piece holds a blank line; every piece but the last also does not end with a newline |
| `Text.SplitAfterClean` | fastask/ask.py:164 | after a Clean piece, the next separator is the split point |
| `History.Blocks` | fastask/ask.py:176-179 | the blocks are the split minus its final piece, and each block is Clean |
| `History.Tail` | fastask/ask.py:179 | the dropped final piece is a suffix of the file and holds no blank line |
| `History.ContentParts` | fastask/ask.py:176-179 | every file is its blocks, each followed by a blank line, then the dropped trailing piece |
| `History.SerializeRoundTrip` | fastask/ask.py:168 | a file written as Clean blocks, each followed by `"\n\n"`, reads back as exactly those blocks, with an empty trailing piece |
| `History.BlocksAppend` | fastask/ask.py:158-164 | appending text keeps every complete block of the file and only extends its trailing piece |
| `History.AppendAddsOneBlock` | fastask/ask.py:157-164 | appending the record of a Clean question and answer adds exactly one block, the entry, after the old trailing piece |
| `History.TrimDropsOldest` | fastask/ask.py:164-168 | the rewrite over capacity removes exactly the first block; the rest keep their order and the file ends on a complete block |
| `History.AddBlocks` | fastask/ask.py:157-168 | for a question and answer without blank lines or a trailing newline (Clean): after add_to_history the blocks are the old blocks plus the old trailing piece followed by the entry, without the oldest block when that exceeds 10; the trailing piece is then empty |
| `History.AppendCountsOneBlock` | fastask/ask.py:157-164 | appending the record of a Clean question and an answer without blank lines (a trailing newline allowed) adds exactly one block |
| `History.AddCount` | fastask/ask.py:157-168 | for such an exchange, add_to_history leaves one more block, or as many as before when one more would exceed 10 |
| `History.AddKeepsCapacity` | fastask/ask.py:164-168 | at most 10 blocks before add_to_history (Clean question, answer without blank lines) means at most 10 after |
| `History.AddThenReadLast` | fastask/ask.py:157-180 | for a Clean question and answer, add_to_history(q, a) then get_last_n_history(1) yields the old trailing piece followed by the entry, and exactly the entry when the file ended on a complete block |
| `History.AppendNewlineAnswer` | fastask/ask.py:157-164 | an answer without blank lines that ends with a newline reads back without it, and the file's trailing piece becomes that newline |
| `History.NewlineAnswerLeadsNextBlock` | fastask/ask.py:157-180 | when an answer ending with a newline is recorded without a rewrite, the trailing piece becomes "\n", and the next Clean exchange reads back as that newline followed by its entry |
| `History.MultiParagraphAnswerExceedsCapacity` | fastask/ask.py:164-168 | from a full file, one answer containing a blank line leaves 11 blocks |
| `History.WindowOfRecent` | fastask/ask.py:165-168 | trimming the most recent 10 entries plus one new entry gives the most recent 10 of the longer list |
| `History.ReplayKeepsMostRecent` | fastask/ask.py:157-168 | after N additions of exchanges whose questions and answers are Clean (no blank lines, no trailing newline), starting from an empty file, it holds exactly the min(N, 10) most recent entries, oldest first |
| `History.ReplayCount` | fastask/ask.py:157-168 | after N additions of exchanges whose answers have no blank lines (trailing newlines allowed) it holds min(N, 10) blocks |
| `History.HistoryFile.Append` | fastask/ask.py:158-159 | the append creates the file if needed, extends it by exactly the text, and changes nothing before it |
| `History.HistoryFile.TrimOldest` | fastask/ask.py:161-168 | the reread-and-rewrite step leaves the file as `Trimmed` of its old content |
| `History.HistoryFile.AddToHistory` | fastask/ask.py:157-168 | the file becomes `AfterAdd` of its old content; for a Clean question and answer its blocks are the window of the old blocks plus the entry; with at most 10 blocks before, it keeps at most 10 when the answer has no blank line |
| `History.HistoryFile.GetLastNHistory` | fastask/ask.py:170-180 | a missing file is created empty and yields []; otherwise the content is unchanged and the result is `blocks[-n:]` |
| `History.HistoryFile.ClearHistory` | fastask/ask.py:182-186 | afterwards the file exists and is empty, and every `blocks[-n:]` is [] |
| `Configuration.IsOpenAIConfigured` | fastask/ask.py:28-32 | raises KeyError exactly when the key is missing; true exactly when the key is non-empty |
| `Configuration.IsConfigured` | fastask/ask.py:34-45 | True iff mode LOCAL, or mode OPENAI with a non-empty key. KeyError iff mode OPENAI without a key. None iff the mode is unknown. False otherwise (no section, no option, empty mode, empty key) |
| `Configuration.FreshStoreNotConfigured` | fastask/ask.py:18-22 | an empty configuration is not configured |
| `Configuration.AfterSetup` | fastask/ask.py:47-78 | the hosted choice replaces the OPENAI section with just the environment key (or the typed key if that is unset or empty) and MODES with mode OPENAI. The local choice replaces only MODES with mode LOCAL when the runner is installed, and changes nothing otherwise. Every other section, and OPENAI under the local choice, is kept; no section is added beyond these |
| `Configuration.ConfigStore.ConfigMode` | fastask/ask.py:47-78 | the store's configuration becomes `AfterSetup` of the old one |
| `Prompts.HostedMessages` | fastask/ask.py:111-117 | system prompt first, question last, history context at index 1 exactly when the history is non-empty |
| `Prompts.LocalCommand` | fastask/ask.py:138-140 | `ollama run fastask-preset <prompt>`; the prompt ends with the question, and it equals the question exactly when there is no history |
| `Answering.StreamedConcat` | fastask/ask.py:125-127 | the reply of a stream is the replies of its parts, concatenated in order |
| `Answering.ContentlessStreamIsEmpty` | fastask/ask.py:125-127 | a stream whose chunks all carry no text adds up to the empty reply |
| `Answering.ContentlessChunksAddNothing` | fastask/ask.py:127 | chunks whose content is None or "" change nothing wherever they occur in the stream |
| `Answering.CollectStream` | fastask/ask.py:125-127 | the accumulated response is the stream's full reply |
| `Answering.RelayOutput` | fastask/ask.py:144-150 | the character loop captures exactly the child's output |
| `Answering.UseOpenAI` | fastask/ask.py:80-132 | sends the messages built from the last 5 blocks before the call, then records (question, full reply) with add_to_history |
| `Answering.UseLocal` | fastask/ask.py:134-155 | runs the command built from the last 5 blocks before the call, then records (question, full output) with add_to_history |
| `Cli.Route` | fastask/ask.py:207-230 | complete case split: usage iff no arguments; setup-and-exit iff --reset; crash iff hosted mode lacks its key; setup-and-return iff otherwise unconfigured; hosted or local by mode otherwise; the fall-through is unreachable |
| `Cli.ExitStatus` | fastask/ask.py:208-214 | status 1 exactly for the usage exit and for the uncaught KeyError, 0 for every other action |
| `Cli.RouteExitStatus` | fastask/ask.py:208-221 | an invocation exits with status 1 exactly when it has no arguments, or asks a question in hosted mode with the API key missing; otherwise with 0 |
| `Cli.SetupThenAnswer` | fastask/ask.py:218-230 | after a successful setup, the next invocation with a question answers in the chosen mode |
| `Cli.Invoke` | fastask/ask.py:188-230 | one invocation takes `Route`'s action; only setup changes the configuration; only answering changes the history, by one add_to_history |

## Left out

- The hosted completion call (OpenAI client, model name, `stream=True`). The model takes its result instead: the stream of delta contents (`deltas`).
- The local runner process (`subprocess.Popen`, `process.wait`). Its output is a parameter (`stdout`). The `ollama --version` probe and `ollama create` in setup become one flag, `runnerInstalled`: whether the probe succeeds and neither call raises (a failing `ollama create` is not checked, so it does not abort the setup).
- Printing: the help text, streamed tokens, relayed characters, setup messages. It is output only and not modelled.
- The interactive menu, `input()` and `os.getenv`. They become the `SetupInput` parameters. Cancelling the menu (which makes `inquirer.prompt` return `None`) is not modelled.
- Reading and writing the INI file, `os.makedirs`, and the temp-directory path. The configuration is a map in memory, and the history file is a flag plus a string.
- configparser details are not modelled: option names are case-insensitive (they are lower-cased), and the `DEFAULT` section falls back to other sections. Lookups in the model are exact on the map's keys.
- Text-mode I/O is not modelled: universal-newline translation of `\r\n` and `\r` on read, and the text encoding, both for the history file and for the child's output pipe. The buffer and `stdout` hold the text as read.
- `argparse` and `shlex.join` are not modelled. The routing takes `len(sys.argv)`, the `--reset` flag and the joined question as given. The usage error argparse raises on an unknown option is not modelled.
- The system prompt text is constant data. It is a parameter of `HostedMessages` and `UseOpenAI`.
- Exceptions from file and process I/O are not modelled, nor are races between concurrent invocations on the two files.
