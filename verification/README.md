# Markdown viewer: document chunker and file list, in Dafny

This project models the two pieces of logic in the Markdown viewer's main
component (`src/App.tsx`) that are more than rendering:

- **The document chunker** (`splitIntoChunks`). It cuts a document's text into
  consecutive chunks so that a virtualized list can render them lazily. From
  the current offset, a chunk ends at the first paragraph break (`"\n\n"`) at or
  after `offset + CHUNK_SIZE`, or at the end of the text when there is no such
  break. If that chunk would be longer than 1.5 × `CHUNK_SIZE`, the chunk ends
  instead at the last line feed after the offset and at most `CHUNK_SIZE` past
  it. If there is no such line feed, it ends with a hard cut at
  `offset + CHUNK_SIZE`. `CHUNK_SIZE` is 5000.
  - Module `Chunker` (`chunker.dfy`) holds the JavaScript string searches the
    chunker uses, with their exact semantics (`indexOf`, `lastIndexOf`). It
    also holds one step of the loop, the chunker as a recursive function, and
    the source's `while` loop proved equal to that function.
  - The boundary policy is also stated declaratively (`IsBoundary`). Module
    `ChunkerProperties` (`chunker_properties.dfy`) proves that the chunker's
    output is the one and only chunking whose every boundary follows the
    policy. It also proves the size bounds, the one-chunk cases, the hard-cut
    case and two worked examples.
- **The file list** (`files`, `selectedFile`). Module `FileList`
  (`file_list.dfy`) models each of these as a pure transition on an immutable
  state:
  - restoring a saved list;
  - dropping a batch of files. The batch is the drop zone's `acceptedFiles`,
    which the drop zone has already filtered (see "## Left out"). If any name
    in it does not end in `.md`, compared case-sensitively, the whole batch
    is rejected. Names that pass the filter but fail this check include
    `NOTES.MD` and a `text/markdown` file not named `*.md`;
  - clicking a file to select it;
  - looking up the shown file, which is the first record with the selected
    name;
  - deleting a name, which removes every record of that name and repairs the
    selection.

  Module `FileListProperties` (`file_list_properties.dfy`) proves:
  - the state invariant every transition keeps;
  - that deleting a freshly dropped file undoes the drop;
  - that deleting is idempotent;
  - an end-to-end drop-then-delete scenario.

Strings are `seq<char>`. Every index stands for a UTF-16 code-unit index, as
in JavaScript, but only by convention: a Dafny `char` is a Unicode scalar
value and cannot hold a lone surrogate. A character outside the Basic
Multilingual Plane takes two code units in JavaScript. In the model it is
written as two `char`s, neither of which is a line feed. The source's hard
cut at `offset + CHUNK_SIZE` counts code units, so it can split such a
surrogate pair between two chunks. The chunker takes the chunk size as a parameter `size >= 1`.
`SplitIntoChunks` fixes it at 5000. The source tests
`nextBreak - currentIndex > CHUNK_SIZE * 1.5`; the model writes this as the
integer comparison `2 * (nb - ci) > 3 * size`. The two agree because both
sides are integers far below 2^53.

Behaviour of the code worth knowing, each stated as a lemma or contract:

- Non-empty text is a single chunk exactly when both of these hold
  (`OneChunkIff`):
  - it is at most 1.5 × `CHUNK_SIZE` long;
  - no paragraph break starts at or after index `CHUNK_SIZE`.

  Being at most 1.5 × `CHUNK_SIZE` long is not enough on its own
  (`ParagraphBreakAfterSizeSplits`: with size 4, `"abcd\n\n"` gives `"abcd"`
  and `"\n\n"`). Text at most `CHUNK_SIZE` long is always a single chunk
  (`ShortTextIsOneChunk`).
- The line-feed fallback ignores a line feed at the current offset itself. The
  code replaces a `lastIndexOf` result `<= currentIndex` by the hard cut, so
  only line feeds strictly after the offset count.
- Any chunk that ends at a paragraph break is the chunk before that break. The
  break itself (`"\n\n"`) starts the next chunk.
- The last chunk always runs to the end of the text under the end-of-text
  rule. The paragraph rule and the fallback rule never produce the last chunk.
- Re-dropping a name that is already stored appends a second record with that
  name. The selection is by name, and the lookup returns the first match. So
  the viewer keeps showing the earlier record (`DroppingAgainShowsEarlierRecord`).

## Model

| member | source | states |
|---|---|---|
| Chunker.IndexOfPara | src/App.tsx:50 | `indexOf("\n\n", from)` returns -1 exactly when no paragraph break starts at or after `from` (including `from` past the end); otherwise the least such index |
| Chunker.LastIndexOfNl | src/App.tsx:54 | `lastIndexOf('\n', from)` returns the greatest line-feed index at or before `from` within the text, and -1 exactly when there is none |
| Chunker.ParaCandidate | src/App.tsx:50-51 | the paragraph-rule end lies after the offset and is either the first paragraph break at or after `offset + size` or, when there is none, the text's length |
| Chunker.FallbackBreak | src/App.tsx:54-55 | the fallback end is the last line feed strictly after the offset and at most `size` past it, else exactly `offset + size`; it is within `size` of the offset |
| Chunker.NextBreak | src/App.tsx:50-56 | each loop pass ends its chunk strictly after the offset, within the text, and at most 1.5 × size past the offset, so the loop advances and terminates |
| Chunker.NextBreakFollowsPolicy | src/App.tsx:50-56 | the end each loop pass picks is the boundary the policy prescribes: the first paragraph break at or after `offset + size` within 1.5 × size, or the end of the text within 1.5 × size, or else the last line feed after the offset and at most `size` past it, or else `offset + size` |
| Chunker.BoundaryUnique | src/App.tsx:50-56 | the boundary policy determines at most one end for the chunk at a given offset |
| Chunker.FindBreak | src/App.tsx:50-56 | the three statements that assign `nextBreak` pick the end the boundary policy prescribes for the chunk at the current offset, and that end is the step the recursive chunker takes |
| Chunker.ChunksFromConcat | src/App.tsx:49-60 | the chunks produced from an offset, put back together, give the rest of the text exactly |
| Chunker.ChunksFromSizes | src/App.tsx:49-60 | every chunk produced from an offset is non-empty and at most 1.5 × size long |
| Chunker.Split | src/App.tsx:45-63 | the chunks concatenate to the input exactly; there are none exactly when the input is empty; every chunk is non-empty and at most 1.5 × size long |
| Chunker.SplitIntoChunks | src/App.tsx:45-63 | with `CHUNK_SIZE` = 5000: chunks concatenate to the content, the empty content has no chunks, every chunk holds 1 to 7500 characters |
| Chunker.SplitLoop | src/App.tsx:45-63 | the source's `while` loop returns the same chunks as the recursive chunker, and they concatenate back to the content |
| ChunkerProperties.ChunksFromIsChunking | src/App.tsx:49-60 | the chunker's output from any offset is a chunking in which every boundary follows the policy |
| ChunkerProperties.SameFirstBoundary | src/App.tsx:50-59 | in any policy-following chunking the first chunk ends where the loop's first pass ends, and the rest follows the policy from there |
| ChunkerProperties.ChunkingIsChunksFrom | src/App.tsx:49-60 | any chunking from an offset whose boundaries follow the policy is the chunker's output |
| ChunkerProperties.SplitIsThePolicy | src/App.tsx:45-63 | a sequence of chunks follows the boundary policy from offset 0 to the end if and only if it is what the chunker returns |
| ChunkerProperties.BoundaryKinds | src/App.tsx:50-56 | a boundary before the end of the text is a paragraph break or a fallback cut at most `size` long; a boundary at the end of the text is the end-of-text case |
| ChunkerProperties.ChunkingBoundary | src/App.tsx:49-59 | in a policy-following chunking, chunk k is the text between the end of the chunks before it and its own end, that end is a policy boundary, and the chunk is the last one exactly when it reaches the end of the text |
| ChunkerProperties.ChunkBoundary | src/App.tsx:49-59 | chunk k of a text is the stretch after the earlier chunks; a non-final chunk ends at the first paragraph break at or after `offset + size` within 1.5 × size, or else at the last line feed after the offset and at most `size` past it, or else at `offset + size`; the final chunk is the rest of the text with no paragraph break from `offset + size` on |
| ChunkerProperties.OneChunkIff | src/App.tsx:49-53 | non-empty text is exactly one chunk equal to itself if and only if it is at most 1.5 × size long and no paragraph break starts at index `size` or later |
| ChunkerProperties.ShortTextIsOneChunk | src/App.tsx:49-53 | non-empty text no longer than the chunk size is one chunk equal to the whole text |
| ChunkerProperties.ParagraphBreakAfterSizeSplits | src/App.tsx:50-53 | text within 1.5 × size can still split: with size 4, "abcd\n\n" gives "abcd" and "\n\n" |
| ChunkerProperties.NoNewlineBreak | src/App.tsx:50-55 | in text without line feeds a chunk is the rest of the text when that is within 1.5 × size, and a hard cut of exactly `size` otherwise |
| ChunkerProperties.HardCutsFrom | src/App.tsx:49-59 | from an offset, line-feed-free text of n × size characters yields n chunks of exactly `size` characters |
| ChunkerProperties.HardCuts | src/App.tsx:49-59 | line-feed-free text of length n × size (n ≥ 1) splits into exactly n chunks, each exactly `size` long |
| ChunkerProperties.SmallSizeExample | src/App.tsx:45-63 | with size 1, "A\n\nB" splits into "A", "\n", "\n", "B": a paragraph cut, a line-feed cut, a hard cut (the line feed at the offset itself is skipped), then the rest |
| FileList.Restore | src/App.tsx:27-31 | after loading a saved list, the list is kept, the selection is its first file's name (none when empty), and that selection names a stored file |
| FileList.AllMarkdown | src/App.tsx:71-74 | a batch passes the extension check exactly when every file name ends in ".md" |
| FileList.Intake | src/App.tsx:76-82 | a dropped file's record keeps its name and text, and its chunks concatenate back to the text |
| FileList.Drop | src/App.tsx:70-89 | a batch holding any non-".md" name leaves files and selection unchanged and shows the error message; otherwise the old records stay first, one record per dropped file follows in batch order with name, text and the chunker's chunks, the first new name is selected (selection unchanged for an empty batch), and the error is cleared |
| FileList.Select | src/App.tsx:182 | clicking a file selects its name and changes nothing else |
| FileList.FindNamed | src/App.tsx:112 | finds nothing exactly when no record has the name; otherwise the position of a record with that name with none before it |
| FileList.SelectedFile | src/App.tsx:112 | the shown file is absent exactly when nothing is selected or no record has the selected name; otherwise it is the first record with the selected name |
| FileList.RemoveNamed | src/App.tsx:98 | filtering keeps exactly the records whose name differs, in their original order, and drops as many records as carry the name |
| FileList.Delete | src/App.tsx:97-103 | deleting removes every record of that name, keeps the others in order, leaves no record of that name; a deleted selection moves to the first remaining file or none, any other selection stays |
| FileListProperties.DropKeepsValid | src/App.tsx:86-89 | after any drop the selection still names a stored file and every stored file is chunked by the chunker |
| FileListProperties.SelectKeepsValid | src/App.tsx:182 | selecting a listed file keeps the state valid |
| FileListProperties.DeleteKeepsValid | src/App.tsx:97-103 | after any deletion the selection still names a stored file or is empty, and every stored file is still chunked by the chunker |
| FileListProperties.SelectionIsShown | src/App.tsx:112 | in a valid state with a selection, a file of that name is shown and its chunks concatenate to its text |
| FileListProperties.DroppingAgainShowsEarlierRecord | src/App.tsx:86-88 | dropping a name already stored appends a duplicate record, yet the viewer shows the earlier record of that name |
| FileListProperties.RemoveUnlisted | src/App.tsx:98 | filtering out a name that no record carries changes nothing |
| FileListProperties.DeleteUndoesDrop | src/App.tsx:86-98 | deleting the name of a freshly dropped file whose name was not stored restores the previous file list |
| FileListProperties.DeleteIdempotent | src/App.tsx:97-103 | deleting the same name twice gives the same state as deleting it once |
| FileListProperties.NotesScenario | src/App.tsx:65-103 | dropping "notes.md" with "A\n\nB" into an empty viewer stores it as one chunk and selects it; deleting it then empties the list and clears the selection |

## Left out

- Browser storage. The saved list is read from local storage and parsed as JSON
  (`src/App.tsx:21-24, 28-29`), and it is written back on every change
  (`src/App.tsx:33-35`). This is browser I/O. `Restore` takes the saved list
  as a parameter. A saved list is not assumed to be chunked by the current
  chunker.
- Reading dropped files. `file.text()` and `Promise.all` (`src/App.tsx:70-84`)
  are asynchronous browser I/O. A dropped file arrives with its text already
  read.
- Read failures. A failed read shows the browser exception's message, which
  is not visible here, so that error path is not modelled. Each file's name
  is checked synchronously when `map` reaches it, before its own read. A
  failed check rejects at once, before any read can finish, so `Promise.all`
  rejects with the extension message whatever the reads would do.
- The `loading` flag (`src/App.tsx:66, 93`). It only switches a spinner.
- React batching. `handleDeleteFile` filters `prev` for the new list and the
  rendered `files` for the new selection. The model treats both as the
  current list, so each transition is a pure step on the current state.
- Dark mode and DOM class changes (`src/App.tsx:37-43, 127-132`). These are
  UI side effects.
- The react-dropzone `accept` filter (`src/App.tsx:105-110`). This is
  library behaviour. The filter passes a file when it has the
  `text/markdown` MIME type or an `.md` extension in any letter case. Any
  other file goes to the drop zone's rejections and never reaches `onDrop`.
  So dropping `a.txt` together with `b.md` adds `b.md` with no error. `Drop`
  takes the filtered `acceptedFiles` as its batch.
- JSX rendering and the Virtuoso list wiring (`src/App.tsx:114-254`). These
  are rendering only.
- `src/components/MarkdownChunk.tsx`. It wraps marked, its KaTeX extension and
  DOMPurify, which are foreign libraries.
- `tailwind.config.js`. It is styling configuration.
- JavaScript number limits. Indices and lengths are unbounded integers here.
  The source's doubles are exact for any string a browser can hold.
