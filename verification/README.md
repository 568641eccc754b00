# Lecture-notes pipeline: the pure core

`video_pdf.py` turns a lecture video into a PDF of study notes:

1. It takes the video ID from the URL.
2. It fetches the transcript.
3. It asks a language model for a title.
4. It cuts the transcript into chunks and asks the model for notes on each chunk.
5. With more than one chunk, it asks the model once more to merge the notes.
6. It writes a PDF whose file name is the sanitised title.

This project models the deterministic parts of that pipeline and proves what they do:

- **`Chunker`** models `chunk_transcript`, the greedy word chunker. It mirrors the loop (`Group`). It also gives an independent reference definition, `GreedyPartition`: the chunks' words read in order are exactly the transcript's words, no chunk is empty, every chunk but the last has reached the limit, and no chunk could have been closed earlier. It proves that the loop computes that partition and nothing else does.
- **`Summarizer`** models the control skeleton of `summarize_text`. The model is a parameter, `generate: Prompt -> Response`, and every run returns its outcome together with the prompts it sent, in order. It proves:
  - which calls are made for zero, one or many chunks;
  - the fail-fast behaviour, with a 1-based chunk index;
  - the single merge call over the replies joined by blank lines.
- **`Title`** models the extraction `response.text.split("Title: ")[-1].strip()` and the error handling of `generate_title`.
- **`FileName`** models the file-name sanitisation in `process_video`.
- **`VideoId`** models `get_youtube_video_id`: a leftmost search for `v=` or `/` followed by eleven characters from `[0-9A-Za-z_-]`.
- **`PyStr`** holds the Python string operations these rely on: `split()`, `sep.join`, `strip()`, `rstrip()` and `split(sep)`. It also holds the leftmost occurrence of a pattern, where `split(sep)` cuts, and the rightmost occurrence, the reference reading of the title extraction.
- **`Results`** and **`Generation`** hold the shared wrappers, and the prompt and response shapes.

Three behaviours of the code are worth knowing:

- **A closed chunk can overshoot the limit by its last word.** The running length is checked only after a word is appended (`Chunker.ChunkMayExceedLimit`).
- **A short transcript comes back as `" ".join(text.split())`**, with its whitespace normalised (`Chunker.ChunkShortText`).
- **Without a `Title: ` marker, the title is the whole reply, stripped** (`Title.ExtractTitle`).

## Model

| member | source | states |
|---|---|---|
| PyStr.Split | video_pdf.py:35 | `text.split()` gives non-empty words without whitespace; it gives no words exactly when the text is all whitespace |
| PyStr.SplitAtSpace | video_pdf.py:35 | `split()` cuts at every whitespace character: the text on either side of one is split independently and the results are concatenated in order |
| PyStr.SplitOfWord | video_pdf.py:35 | a text without whitespace splits into itself; with the two rows above, this fixes `split()` on every text: the maximal non-whitespace runs, in order |
| PyStr.SplitJoin | video_pdf.py:44 | splitting `" ".join(words)` gives back the same words, so joining a chunk loses nothing |
| PyStr.Strip | video_pdf.py:198 | `strip()` leaves no whitespace at either end and removes only whitespace, on both sides of an unchanged middle |
| PyStr.TrimEnd | video_pdf.py:214 | `rstrip()` returns a prefix, drops only whitespace, and leaves no trailing whitespace |
| PyStr.SplitOn | video_pdf.py:198 | `split(sep)` returns at least one piece; no piece contains the separator; the pieces joined with the separator give back the input |
| PyStr.Join | video_pdf.py:44 | `sep.join(parts)` is empty for no parts, and otherwise as long as the parts plus one separator between each pair of neighbours |
| PyStr.JoinEnds | video_pdf.py:44 | the joined string starts with the first part and ends with the last |
| PyStr.JoinSnoc | video_pdf.py:132 | joining one more part appends the separator and that part |
| PyStr.IndexOf | video_pdf.py:198 | the leftmost occurrence that `split(sep)` cuts at: an occurrence with none to its left, or nothing when there is none |
| PyStr.LastIndexOf | video_pdf.py:198 | the rightmost occurrence, the reference reading of "after the last marker": an occurrence with none to its right, or nothing when there is none |
| Chunker.Cost | video_pdf.py:42 | the running length of a list of words is their summed length plus one per word |
| Chunker.CostIsJoinedLength | video_pdf.py:42-44 | the running length of a chunk is one more than the length of the chunk as emitted, its words joined by single spaces |
| Chunker.Group | video_pdf.py:36-48 | from any loop state whose running length is still under the limit, the chunks still to come, read in order, are the current chunk followed by the unvisited words; none is empty; every one but the last reaches the limit; no proper prefix of one reaches it |
| Chunker.ChunkWords | video_pdf.py:33-50 | the loop's chunks, as word lists, form the greedy partition of the words |
| Chunker.Chunk | video_pdf.py:33-50 | the words of the returned chunks form the greedy partition of `text.split()`; each chunk is its own words joined by single spaces |
| Chunker.GreedyPartitionUnique | video_pdf.py:40-48 | two greedy partitions of the same words under the same limit are equal |
| Chunker.ChunkWordsIsTheGreedyPartition | video_pdf.py:40-48 | a grouping is a greedy partition of the words if and only if it is what the loop returns |
| Chunker.ChunkGroups | video_pdf.py:44-48 | re-splitting the returned chunks gives exactly the loop's word groups |
| Chunker.ChunkNoWords | video_pdf.py:35-50 | there are no chunks if and only if the text has no words |
| Chunker.ChunkWordsSingle | video_pdf.py:40-48 | there is exactly one group if and only if the words are non-empty and no proper prefix reaches the limit; that group is all the words |
| Chunker.ChunkSingle | video_pdf.py:40-48 | there is exactly one chunk if and only if the text has words and no proper prefix of them reaches the limit; that chunk is `" ".join(text.split())` |
| Chunker.ChunkShortText | video_pdf.py:35-48 | text with words whose total running length is under the limit comes back as the single chunk `" ".join(text.split())` |
| Chunker.SingleGroupIsAllWords | video_pdf.py:40-48 | a greedy partition with one group holds all the words, and none of its proper prefixes reaches the limit |
| Chunker.AllWordsIsGreedyPartition | video_pdf.py:40-48 | non-empty words with no proper prefix at the limit form a one-group greedy partition |
| Chunker.SingletonsPartition | video_pdf.py:40-46 | with a limit of at most 1, one word per group is a greedy partition |
| Chunker.ChunkTinyLimit | video_pdf.py:40-46 | with a limit of at most 1, every word is a chunk of its own |
| Chunker.ChunkMayExceedLimit | video_pdf.py:42-44 | a closed chunk can be longer than the limit: the text `"aaaa bbbbbbbb"` under limit 10 comes back as one chunk of 13 characters |
| Chunker.PartitionCountBound | video_pdf.py:42-46 | in a greedy partition, every group but the last contributes at least the limit to the total running length |
| Chunker.ChunkCountBound | video_pdf.py:42-46 | the number of chunks, minus one, times the limit is at most the total running length of the words |
| Chunker.FlattenWords | video_pdf.py:44 | every word of every group is a word of the transcript when the flattened groups are |
| Summarizer.SummarizeEach | video_pdf.py:123-129 | the loop sends chunk prompts in chunk order, at most one per chunk. Success means one prompt and one reply per chunk. An error is a chunk error whose 1-based index is the number of calls made, and the last call is the one that failed with that reason |
| Summarizer.Summarize | video_pdf.py:121-160 | chunk calls come first, in chunk order. A merge call is made only with more than one chunk and only as the last call. A chunk error's index equals the number of calls. A merge error follows all chunk calls. Success takes n calls, plus one with more than one chunk |
| Summarizer.SummarizeText | video_pdf.py:119-160 | a transcript makes at most one call per word plus the merge call; a transcript without words summarizes to `""` with no call |
| Summarizer.SummarizeEachSucceeds | video_pdf.py:123-127 | when every chunk call succeeds, the loop sends exactly the chunk prompts and collects the replies, both in chunk order |
| Summarizer.SummarizeEachFails | video_pdf.py:123-129 | when chunk `i` is the first to fail, the loop stops with chunk error `i + 1` and that failure's reason; it has sent exactly the prompts up to and including chunk `i` |
| Summarizer.SummarizeEachStep | video_pdf.py:125-127 | a successful chunk call puts its prompt in front of the later calls and passes a later error through |
| Summarizer.SummarizeNoChunks | video_pdf.py:131-132 | no chunks: the summary is `""` and no call is made |
| Summarizer.SummarizeOneChunk | video_pdf.py:123-160 | one chunk: exactly one call; its reply is returned verbatim, or its failure becomes chunk error 1; no merge call |
| Summarizer.SummarizeManyChunks | video_pdf.py:123-159 | several chunks whose calls all succeed: the chunk prompts in order, then one merge prompt over the replies joined by `"\n\n"`; the merge reply is the summary, or its failure is a merge error |
| Summarizer.SummarizeFailFast | video_pdf.py:123-129 | the first failing chunk `i` ends the run with chunk error `i + 1`; no later chunk and no merge call is sent |
| Summarizer.SummarizeShortTranscript | video_pdf.py:119-160 | a transcript under the limit is summarized by one call on `" ".join(text.split())`, whose reply is returned verbatim |
| Chunker.FlattenAtLeastGroups | video_pdf.py:40-48 | there are no more groups of non-empty word lists than there are words |
| Title.ExtractTitle | video_pdf.py:198 | the title has no edge whitespace and never contains `"Title: "`; without a marker in the reply it is the whole reply, stripped |
| Title.StripKeepsOut | video_pdf.py:198 | stripping cannot create an occurrence of a pattern |
| Title.TextAfterLastMarker | video_pdf.py:198 | the result is a suffix of the reply with no marker in it, directly preceded by a marker when the reply has one, and the whole reply when it has none |
| Title.MarkerLastAt | video_pdf.py:198 | a marker followed by marker-free text is the rightmost marker, because `"Title: "` cannot overlap itself |
| Title.ExtractTitleAfterLastMarker | video_pdf.py:198 | the last piece of the left-to-right split, stripped, is the text after the rightmost marker, stripped |
| Title.NoMarkerWithoutT | video_pdf.py:198 | text without a `T` contains no marker |
| Title.ExtractTitleAfterMarker | video_pdf.py:198 | whatever precedes the last marker is dropped, and the marker-free text after it is returned stripped |
| Title.ExtractTitleExample | video_pdf.py:193-198 | the reply `"Some preamble. Title: Intro to Linear Algebra"` gives the title `"Intro to Linear Algebra"` |
| Title.GenerateTitle | video_pdf.py:196-200 | a failed call is a title error carrying the failure's reason, and only a failed call is; a reply gives its stripped text after the last marker, which contains no marker |
| FileName.KeepSafe | video_pdf.py:214 | the filter keeps only letters, digits, spaces and underscores, and never lengthens the text |
| FileName.KeepSafeCounts | video_pdf.py:214 | each safe character is kept exactly as often as it occurs, and no other character is kept |
| FileName.KeepSafeAppend | video_pdf.py:214 | the filter works piece by piece, so it keeps the characters' order |
| FileName.KeepSafeFixes | video_pdf.py:214 | the filter leaves text unchanged if and only if every character of it is safe |
| FileName.Sanitize | video_pdf.py:214 | the name has only safe characters and does not end in a space; it is the filtered title with only spaces cut from its end |
| FileName.SafeTrimEnd | video_pdf.py:214 | on safe text `rstrip()` removes exactly the trailing spaces |
| FileName.SafeSpaceIsBlank | video_pdf.py:214 | the only whitespace character the filter keeps is the space |
| FileName.SanitizeIdempotent | video_pdf.py:214 | sanitizing a sanitized name changes nothing |
| FileName.SanitizeIgnoresUnsafe | video_pdf.py:214 | removing an unsafe character from anywhere in the title gives the same name |
| VideoId.MatchAt | video_pdf.py:18 | a match at one position is eleven identifier characters |
| VideoId.SearchFrom | video_pdf.py:19 | the search finds something if and only if some position from the start on matches, and then returns the leftmost match |
| VideoId.GetVideoId | video_pdf.py:16-22 | the ID is returned if and only if the pattern matches somewhere, and it is the eleven identifier characters of the leftmost match; otherwise the URL is reported invalid |
| VideoId.IdAtStart | video_pdf.py:18-21 | `v=` at the very start followed by an ID wins, and identifier characters after the eleventh are ignored |
| VideoId.FirstMatchWins | video_pdf.py:19-21 | the first matching position decides the ID |
| VideoId.WatchUrl | video_pdf.py:18-21 | `https://www.youtube.com/watch?v=<id>…` yields `<id>` |
| VideoId.NoMatchWithin | video_pdf.py:18 | no match starts on a stretch of the URL without `v` and `/` |
| VideoId.ShortUrl | video_pdf.py:18-21 | `https://youtu.be/<id>…` yields `<id>` |

## Left out

- Fetching the transcript (`fetch_transcript`, video_pdf.py:24-31) is left out. It is a call to the transcript service.
- Configuring and calling the language model (video_pdf.py:9-14, 126, 156, 197) is not modelled as such. Each call is the parameter `generate`, a pure function from the prompt to a reply or a failure. Retries, quotas and nondeterminism are not modelled.
- Prompt wording (video_pdf.py:54-117, 135-154, 187-195) is left out. A prompt is the data it is built from: a chunk and the title, the joined partial summaries and the title, or the transcript.
- Summarizer.SummarizeEach: the title is already part of the chunk template when `.format` fills the template at line 124, outside the `try`. So `.format` also reads any braces in the title. A title such as `{0}`, `{x}` or a lone `}` makes that line raise before the first call, and the raise is not a chunk error. A title such as `{text}` or `{{` only changes the prompt text. Neither case is modelled, because a prompt is modelled as the pair (chunk, title).
- Rendering the PDF (`create_pdf`, video_pdf.py:162-183) is left out. It is library I/O.
- Directories, path joining, `main` and printing (video_pdf.py:202-205, 215, 225-240) are left out. They are plumbing around the modelled parts.
- Exception messages are left out. Errors are datatypes (`ChunkError`, `MergeError`, `TitleError`, `InvalidUrl`) carrying the index, the failure's reason or the URL, not the formatted text.
- Whitespace and letters follow the ASCII subsets of Python's `str.isspace` and `str.isalnum`. Unicode whitespace, letters and digits beyond ASCII are not modelled.
- The regular expression is not modelled as a general engine. `VideoId.MatchAt` is this one pattern, written out; the trailing `.*` always matches and does not affect the group.
