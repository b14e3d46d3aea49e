# File operations of an autonomous agent, modelled in Dafny

This project models the file commands of the Auto-GPT agent. The commands act
on the agent's workspace. The model covers five parts:

- **Chunker** (`chunker.dfy`): `split_file`. It cuts a text into windows of at
  most `max_length` characters. Each window starts `max_length - overlap`
  characters after the previous one. The window that reaches the end of the
  text is the last one, so no trailing fragment follows it. Empty text has no
  chunks.
- **File operations** (`file_operations.dfy`): a `Workspace` class. It holds an
  append-only operation log of `(operation, path)` entries and a file store
  from path to text. Its methods are `log_operation`,
  `check_duplicate_operation`, `read_file`, `write_to_file`, `append_to_file`
  and `delete_file`. The log is also the delete guard: a path once logged as
  deleted is never deleted again.
- **Ingestion** (`ingestion.dfy`): `ingest_file`. It chunks a file's text and
  hands each chunk to the memory store, in order, as a formatted record. It
  logs a progress event per chunk. The store's first failure is logged once
  and ends the ingestion. A call is observed as a `Trace`: the info events it
  logged and the records the store accepted. The store is a `StoreOutcome`:
  it never fails, or it fails on the record of chunk `k`, counted from 1.
- **Colour codes** (`color_codes.dfy`): `remove_color_codes`. It deletes every
  Select Graphic Rendition sequence from a string in one left-to-right pass
  and keeps every other character. Such a sequence is ESC, `[`, parameter
  bytes, then `m` (section 8.3.117 of ECMA-48). Parameter bytes are 0x30 to
  0x3F (section 5.4 of ECMA-48).
- **Text** (`text.dfy`): shared helpers. They model Python's `"".join`, `in`
  on two strings, and `str` of a non-negative `int`.

The repository's implementation files are not part of this model. Only its
unit tests are. So each behaviour follows what those tests assert. The
chunker follows the rule stated above: it stops at the first window that
reaches the end, and it gives no chunks for empty text. Where the tests pin
nothing, the model makes its own choice, listed under "## Left out".

## Model

| member | source | states |
|---|---|---|
| Chunker.SplitFile | tests/unit/test_file_operations.py:72-76 | the generator loop that advances `start` by `max_length - overlap` yields exactly `Split`, the window-by-window definition |
| Chunker.SplitExample | tests/unit/test_file_operations.py:72-76 | `"abcdefghij"` with windows of 4 and overlap 1 gives exactly `["abcd", "defg", "ghij"]`, with no trailing fragment |
| Chunker.SplitChunkAt | tests/unit/test_file_operations.py:72-76 | chunk `i` begins `i * (max_length - overlap)` characters in, before the end of the content, and is the content from there clamped to `max_length` characters |
| Chunker.SplitHasNext | tests/unit/test_file_operations.py:72-76 | a chunk follows chunk `i` if and only if window `i` ends before the content does, so emission stops at the first window that reaches the end |
| Chunker.SplitEmpty | tests/unit/test_file_operations.py:72-76 | there are no chunks if and only if the content is empty |
| Chunker.ChunkLengths | tests/unit/test_file_operations.py:72-76 | every chunk is non-empty and at most `max_length` long, and every chunk but the last is exactly `max_length` long |
| Chunker.LastChunkReachesEnd | tests/unit/test_file_operations.py:72-76 | for non-empty content the last chunk is the suffix of the content from its window's start |
| Chunker.ConsecutiveChunksOverlap | tests/unit/test_file_operations.py:72-76 | consecutive chunks share exactly `overlap` characters: the tail of chunk `i` is the head of chunk `i + 1` |
| Chunker.GlueReconstructs | tests/unit/test_file_operations.py:72-76 | keeping the first `max_length - overlap` characters of every chunk but the last, and all of the last, gives back the content exactly |
| Chunker.NoOverlapConcat | tests/unit/test_file_operations.py:233-239 | with no overlap the chunks joined together are the content |
| Chunker.EvenTiling | tests/unit/test_file_operations.py:177-192 | content of `count * max_length` characters with no overlap gives exactly `count` chunks, chunk `j` being the `j`-th block of `max_length` characters |
| FileOperations.Workspace.LogOperation | tests/unit/test_file_operations.py:60-68 | the log gains exactly the entry `(operation, path)` at its end, and the log file gains exactly the line `"operation: path\n"` after its old text |
| FileOperations.LoggedEntryInLogText | tests/unit/test_file_operations.py:65-68 | every logged entry's line stays in the log file's text, whatever is logged after it |
| FileOperations.Workspace.CheckDuplicateOperation | tests/unit/test_file_operations.py:54-56 | the scan answers true if and only if some log entry equals `(operation, path)` |
| FileOperations.LogThenCheck | tests/unit/test_file_operations.py:54-68 | after logging `(operation, path)` the duplicate check answers true, the log file contains `"operation: path"`, and no file changes |
| FileOperations.Workspace.ReadFile | tests/unit/test_file_operations.py:79-81 | a present file reads as exactly its stored text; a missing one reads as the not-found error naming the path |
| FileOperations.Workspace.WriteToFile | tests/unit/test_file_operations.py:84-89 | the file's text becomes exactly the written text, no other file changes, and one `write` entry is logged |
| FileOperations.WriteThenRead | tests/unit/test_file_operations.py:84-89 | reading a file just written gives back exactly the written text |
| FileOperations.Workspace.AppendToFile | tests/unit/test_file_operations.py:92-101 | the file's text becomes its old text, or the empty text for a new file, followed by the appended text; no other file changes and one `append` entry is logged |
| FileOperations.WriteThenAppend | tests/unit/test_file_operations.py:92-101 | writing a text and then appending the same text leaves the text twice over, and logs `write` then `append` |
| FileOperations.Workspace.DeleteFile | tests/unit/test_file_operations.py:104-116 | a path already logged as deleted gets the already-deleted message with nothing changed; otherwise a present file is removed and logged, and a missing one gets the not-found error with nothing changed |
| FileOperations.DeleteTwice | tests/unit/test_file_operations.py:104-107 | deleting a file removes it, and deleting it again returns `"Error: File has already been deleted."` and leaves the store alone |
| FileOperations.DeleteMissing | tests/unit/test_file_operations.py:110-116 | deleting a file removed behind the workspace's back returns a message that contains the operating system's not-found text and is not the already-deleted message |
| FileOperations.DeleteWriteDelete | tests/unit/test_file_operations.py:104-107 | the delete guard looks at the log alone: a path deleted once and then written again is refused, and the new file stays |
| Ingestion.IngestFile | tests/unit/test_file_operations.py:203-268 | the loop over the chunks that stops at the first rejected record leaves exactly the trace `IngestTrace` |
| Ingestion.IngestTraceShape | tests/unit/test_file_operations.py:203-268 | for every store outcome the events are the two opening events, progress events numbered 1, 2, ... in order, then exactly one of the error event and the completion event; the store holds the records of a prefix of the chunks, in order: all of them when nothing is rejected, those before the rejected chunk otherwise |
| Ingestion.IngestEvenBlocks | tests/unit/test_file_operations.py:177-250 | a store that accepts everything, given `count * max_length` characters with no overlap, receives exactly `count` records, record `k` carrying the `k`-th block; the log is the two opening events, `count` progress events and the completion event |
| Ingestion.IngestFailsAtFirstChunk | tests/unit/test_file_operations.py:253-268 | a store that rejects the first record gets no record, and the log is exactly the two opening events, the progress event of chunk 1 and one error event with the store's error text |
| Ingestion.ProgressMessageExample | tests/unit/test_file_operations.py:261 | the progress event of chunk 1 of 5 reads `"Ingesting chunk 1 / 5 into memory"` |
| Ingestion.LengthMessageExample | tests/unit/test_file_operations.py:215 | the length event of a 50-character file reads `"File length: 50 characters"` |
| Ingestion.DoneMessageExample | tests/unit/test_file_operations.py:224-226 | the completion event of 5 chunks reads `"Done ingesting 5 chunks from <file>."` |
| Text.NatToStringRoundTrip | tests/unit/test_file_operations.py:212-226 | the decimal rendering of a number used in the messages reads back as that number |
| ColorCodes.RemoveColorCodes | tests/test_utils.py:200-226 | the result is never longer than the input |
| ColorCodes.UnchangedIffNoSgr | tests/test_utils.py:209-220 | a string comes back unchanged if and only if no SGR sequence starts anywhere in it |
| ColorCodes.PlainTextUnchanged | tests/test_utils.py:209-220 | a string without an escape character comes back unchanged |
| ColorCodes.EmptyStringUnchanged | tests/test_utils.py:219 | the empty string comes back empty |
| ColorCodes.StripRendered | tests/test_utils.py:200-208 | for coloured output built from text pieces and codes, stripping leaves exactly the text pieces, in order |
| ColorCodes.CodeBetweenText | tests/test_utils.py:221 | one code between two texts without escapes goes, and the texts stay, in order |
| ColorCodes.SingleCodeExample | tests/test_utils.py:221 | `"hello\x1B[31m world"` becomes `"hello world"` |
| ColorCodes.CodesAroundText | tests/test_utils.py:222 | a code in front of a text and a code inside it both go, and the text stays |
| ColorCodes.GreetingExample | tests/test_utils.py:222 | `"\x1B[36mHello,\x1B[32m World!"` becomes `"Hello, World!"` |
| ColorCodes.AdjacentCodesRemoved | tests/test_utils.py:223-226 | adjacent codes, a reset and another code all go, and the message around them stays |
| ColorCodes.AdjacentCodesExample | tests/test_utils.py:223-226 | `"\x1B[1m\x1B[31mError:\x1B[0m\x1B[31m file not found"` becomes `"Error: file not found"` |
| ColorCodes.SinglePass | tests/test_utils.py:200-226 | the removal is one pass: a sequence that only forms once an inner sequence is removed stays, and a second removal would remove it |

## Left out

- `download_file`, `list_files`, `readable_file_size`, `validate_yaml_file`, the bulletin functions, `get_current_git_branch` and `clean_input` are not modelled. They rest on the network, the file system's directory walk, YAML parsing, git or the terminal.
- Real file I/O, the `Config` object, the `Logger` and `get_memory` are not modelled. The file system is the workspace's map from path to text. The log file is the text `LogText` of the log. The logger is the trace's event list. The memory store is a `StoreOutcome`.
- Paths are opaque strings. Workspace path scoping and the creation of parent directories are not modelled.
- `split_file` is a lazy generator in the source. The model computes the whole chunk list.
- Chunker.SplitFile requires `overlap < max_length`. The model does not cover what the code does otherwise.
- Chunker.SplitEmpty: no test pins the result for empty content. The model's own choice is zero chunks.
- Ingestion.IngestFile takes the file's text as a parameter instead of reading the file, so a read failure inside `ingest_file` is not modelled. The store's error text is an arbitrary string, whatever Python's exception message would be.
- Ingestion.IngestFile: the record the store rejects is not in `stored`, even though the store was called with it. The `stored` list holds the records the store accepted.
- FileOperations.Workspace.WriteToFile and FileOperations.Workspace.AppendToFile do not consult the log before acting. Only `delete_file` does.
- FileOperations.Workspace.DeleteFile: no test pins the success message. The model uses "File deleted successfully.". The not-found error is "Error: " followed by `NotFoundText(path)`. The tests pin only that the error contains the operating system's not-found text.
- The not-found text `NotFoundText` is the POSIX text `[Errno 2] No such file or directory: '<path>'`. It matches Python's message only for a path that Python's `repr` prints unchanged between single quotes. The model does not cover other paths. Those include a path containing `'`, which `repr` puts between double quotes, and paths with backslashes or unprintable characters, which `repr` escapes. It also does not cover the Windows text `[WinError 2] ...`.
- FileOperations.Workspace.ReadFile: no test pins the missing-file error text. The model reuses the not-found error of `delete_file`.
- ColorCodes.RemoveColorCodes: the call on a dict (tests/test_utils.py:227) renders its argument with `str` first. The model takes only strings.
- ColorCodes.RemoveColorCodes: only SGR sequences whose parameters are ECMA-48 parameter bytes are removed. Other escape sequences, and SGR sequences with intermediate bytes, are kept.
