# Sliding chapter window of the novel reader panel

This project is a Dafny model of the core of `ReaderPanel`, the tool-window panel of a novel-reader
IDE plugin. The panel splits a plain-text novel into chapters. Its text area then shows a sliding
window of those chapters.

- **Document.** The panel's document holds a contiguous, inclusive run of chapters
  `[loadedStart, loadedEnd]`, at most eight of them (`MAX_KEEP_CHAPTERS`).
- **Offset tables.** `chapterStartOffsets` and `chapterEndOffsets` record each loaded chapter's
  range `[start, end)` in the document. Both entries are -1 for a chapter that is not loaded.
- **Growing the window.** A chapter is appended at the end, or inserted at offset 0 (prepended).
  The window then evicts chapters from the opposite end until it is back within the cap.
- **Keeping the reader's place.** The panel keeps the reading anchor (the offset at the top of the
  viewport) on the same text, or jumps to a chapter's title.
- **Reading position.** It is persisted as a chapter and an offset within that chapter, and is
  restored only into the chapter it names.
- **Sustained scrolling.** Three wheel events at the bottom (or top) of the document, each within
  900 ms of the one before, load the next (or previous) chapter.

The model has four modules:

- `Common` (common.dfy): an `Option` type and Kotlin's `coerceIn`/`coerceAtLeast` clamps.
- `ChapterSplit` (chapter_split.dfy): the chapter heading pattern, as a matcher with soundness and
  completeness lemmas. Also the line-by-line split loop, proved against a recursive specification:
  the opening chapter "开篇" comes first, one chapter follows per heading line in line order, and no
  body text is lost.
- `AutoLoad` (auto_load.dfy): one step of the sustained-scroll detector, on values, with lemmas
  about runs of events.
- `OffsetTables` (offset_tables.dfy): the invariant of the offset tables (`Tiles`). The loaded
  ranges are non-empty, lie in chapter order and tile the document from 0 to its length; every
  other entry is -1. One lemma per kind of edit shows that the edit keeps the invariant.
- `Reader` (reader_panel.dfy): the class `ReaderPanel`. Its fields are:
  - the document `text`;
  - the tables `starts`/`ends`, as arrays;
  - the window bounds;
  - the four gesture counters;
  - the chapter titles.

  Every operation that changes the window keeps `Valid()` (the tables describe the window and the
  window has at most eight chapters). Each operation states the new document, window, offsets and
  counters. An append is stated by the predicate `AppendedWindow` and a prepend by `PrependedWindow`,
  against a `Snapshot` of the state before the edit. Every caller (the loads, the selection and the
  wheel handlers) states its result through the same predicate.
  Changes of view are returned as a list of `ViewRequest`s (`JumpTo`, `ScrollTopTo`), in the order
  the panel issues them, with the clamping the panel applies.

Loading a chapter is one atomic step in the model. The panel reads the chapter's cache file on a
worker thread and edits the document later, on the UI thread. It also widens the window bound before
the read, while the model widens it in the load. Chapter bodies, the viewport's top offset, the
at-bottom/at-top flags, the current time and the line separator are parameters.

Details of the code that the model follows:

- **Heading lines.** A heading may start with whitespace, which the title drops. The title keeps any
  trailing whitespace, because `.*` is greedy.
- **Eviction.** It happens only once the window holds more than eight chapters, so a window of four
  chapters evicts nothing on an append.
- **Prepend scroll target.** The target is clamped to the document's length just after the insert,
  before the bottom shrink.
- **Restarting at chapter 0.** Chapter 0 is the "开篇" chapter itself.
- **Counter reset.** Both loads clear the gesture counters before the document edit. The panel clears
  them last, but neither the edit nor the requests read the counters, so the final state is the same.

## Model

| member | source | states |
|---|---|---|
| Common.CoerceIn | src/main/kotlin/com/ch/novelreader/ReaderPanel.kt:466 | The result lies in `[lo, hi]`. It is `x` when `x` is inside the range and the nearer bound otherwise. |
| Common.CoerceAtLeast | src/main/kotlin/com/ch/novelreader/ReaderPanel.kt:390 | The result is at least `lo` and at least `x`, and it is one of the two. |
| ChapterSplit.LeadingSpaces | src/main/kotlin/com/ch/novelreader/ReaderPanel.kt:77 | Returns the length of the longest prefix that the pattern's `\s*` matches. The prefix is all Java `\s` characters and is followed by a non-space. |
| ChapterSplit.NumeralRun | src/main/kotlin/com/ch/novelreader/ReaderPanel.kt:77 | Returns the length of the longest prefix of characters from the numeral class `[0-9一二…零]`, which is followed by a non-numeral. |
| ChapterSplit.HeadingTitle | src/main/kotlin/com/ch/novelreader/ReaderPanel.kt:77 | Soundness: a title it returns is capture group 1 of some match. The line is leading spaces, then 第, numerals, a kind character from `[章节回卷部篇]`, and a tail without line terminators. The title is the line minus its leading spaces. |
| ChapterSplit.HeadingTitleComplete | src/main/kotlin/com/ch/novelreader/ReaderPanel.kt:77 | Completeness: every way the pattern can match a line gives HeadingTitle's answer, so a heading line is never missed. |
| ChapterSplit.AddLine | src/main/kotlin/com/ch/novelreader/ReaderPanel.kt:194-201 | A heading line keeps every chapter and adds one after them, titled with the heading and with an empty body. Any other line keeps the chapters before the last and the last one's title, and appends the line and the separator to the last one's body. |
| ChapterSplit.Split | src/main/kotlin/com/ch/novelreader/ReaderPanel.kt:181-202 | The chapter list is never empty, because the opening chapter always exists. |
| ChapterSplit.AddLineEffect | src/main/kotlin/com/ch/novelreader/ReaderPanel.kt:194-201 | A heading line adds one chapter and appends the heading's title to the title list; the bodies joined stay the same. Any other line keeps the chapter count and the titles, and the bodies joined gain the line and the separator. |
| ChapterSplit.SplitTitles | src/main/kotlin/com/ch/novelreader/ReaderPanel.kt:181-202 | The titles are "开篇" followed by the heading titles in line order. There is one chapter more than there are heading lines. |
| ChapterSplit.SplitBodies | src/main/kotlin/com/ch/novelreader/ReaderPanel.kt:193-202 | The bodies, one after the other, are exactly the non-heading lines in order, each followed by the separator. |
| ChapterSplit.TailJoinsLast | src/main/kotlin/com/ch/novelreader/ReaderPanel.kt:193-201 | Lines without a heading change only the chapter opened last: the chapters before it stay as they are, and its body grows by those lines, each followed by the separator. |
| ChapterSplit.OpeningChapterOnly | src/main/kotlin/com/ch/novelreader/ReaderPanel.kt:190-201 | A text without any heading line is the single chapter "开篇", whose body is every line followed by the separator. |
| ChapterSplit.LastChapterIsTail | src/main/kotlin/com/ch/novelreader/ReaderPanel.kt:193-201 | After the last heading line, the chapters are those of the lines before it, followed by one chapter titled with that heading whose body is exactly the lines after it. |
| ChapterSplit.SplitAtLastHeading | src/main/kotlin/com/ch/novelreader/ReaderPanel.kt:193-201 | The same as LastChapterIsTail, for the heading at a given line index with no heading after it. |
| ChapterSplit.SplitShape | src/main/kotlin/com/ch/novelreader/ReaderPanel.kt:181-202 | The split as a whole: "开篇" comes first, then one chapter per heading in line order; the bodies joined are the non-heading lines with separators; a text without headings is one chapter; the last chapter holds exactly the lines after the last heading. |
| ChapterSplit.SplitIntoChapters | src/main/kotlin/com/ch/novelreader/ReaderPanel.kt:181-202 | The loop's result is the specified split. The first chapter is "开篇", the titles are in heading order, and no body text is lost or reordered. A text without headings is one "开篇" chapter holding every line. After the last heading, the chapters are those of the lines before it plus one chapter titled with that heading whose body is exactly the lines after it. |
| AutoLoad.WheelStepSpec | src/main/kotlin/com/ch/novelreader/ReaderPanel.kt:656-695 | An event loads if and only if all of these hold: the view is at the boundary, there is a chapter to load, two events are already counted, and the last one is at most 900 ms old. A load clears the count. A non-boundary event clears the count. An event after more than 900 ms restarts the count at one. The counter never exceeds two between events. |
| AutoLoad.WheelStep | src/main/kotlin/com/ch/novelreader/ReaderPanel.kt:656-695 | A load happens only at the boundary with a chapter to load, and then clears the count at the event's time. A non-boundary event clears the count, keeps the time and never loads. A boundary event with nothing to load changes nothing. A counted event records its time and leaves fewer than three counted. A settled counter stays settled. |
| AutoLoad.NoLoadBeforeThreshold | src/main/kotlin/com/ch/novelreader/ReaderPanel.kt:665-673 | Fewer events than are missing to reach three never load. From a cleared counter, this means one or two events never load. |
| AutoLoad.ThreeQuickEventsLoad | src/main/kotlin/com/ch/novelreader/ReaderPanel.kt:664-673 | Three boundary events, each within 900 ms of the one before, load on the third event and not before. The counter ends cleared. |
| AutoLoad.NonBoundaryClears | src/main/kotlin/com/ch/novelreader/ReaderPanel.kt:657-660 | A non-boundary event anywhere in a run clears the count and does not load. |
| OffsetTables.Shifted | src/main/kotlin/com/ch/novelreader/ReaderPanel.kt:531-534 | Within the given chapter range, recorded entries (those at least 0) move by `delta`. Entries of -1 and entries outside the range stay. |
| OffsetTables.TilesOrdered | src/main/kotlin/com/ch/novelreader/ReaderPanel.kt:95-101 | Under the table invariant, an earlier loaded chapter ends at or before a later one starts. |
| OffsetTables.TilesCover | src/main/kotlin/com/ch/novelreader/ReaderPanel.kt:95-101 | Under the table invariant, every document offset from a loaded chapter's start on lies in some loaded chapter from that one on. |
| OffsetTables.TilesCleared | src/main/kotlin/com/ch/novelreader/ReaderPanel.kt:226-227 | Tables of all -1 with an empty window satisfy the invariant for a document of any length. |
| OffsetTables.TilesAfterAppend | src/main/kotlin/com/ch/novelreader/ReaderPanel.kt:372-376 | Recording `[n, n + len)` for the chapter after the window keeps the invariant, with the window extended and the document longer by `len`. |
| OffsetTables.TilesAfterPrepend | src/main/kotlin/com/ch/novelreader/ReaderPanel.kt:432-443 | Inserting a chunk at 0 keeps the invariant when the loaded chapters shift down by its length and the new chapter gets `[0, len)`. |
| OffsetTables.TilesAfterEvictFirst | src/main/kotlin/com/ch/novelreader/ReaderPanel.kt:517-539 | Evicting the first chapter keeps the invariant: its entries become -1 and the rest shift up by its end. Its end is positive, so removing it is never refused. |
| OffsetTables.TilesAfterEvictLast | src/main/kotlin/com/ch/novelreader/ReaderPanel.kt:548-572 | Evicting the last chapter keeps the invariant, with the document cut at its start. That start is positive and before the document's end, so the panel's skip branches cannot fire. |
| Reader.TitleHeader | src/main/kotlin/com/ch/novelreader/ReaderPanel.kt:368 | The header is four characters longer than the title. |
| Reader.AppendChunk | src/main/kotlin/com/ch/novelreader/ReaderPanel.kt:366-370 | The chunk's length is the title, body and header brackets, plus two when the document is not empty. |
| Reader.PrependChunk | src/main/kotlin/com/ch/novelreader/ReaderPanel.kt:423-427 | The chunk's length is the title, body, header brackets and the trailing blank line. |
| Reader.AppendChunkLayout | src/main/kotlin/com/ch/novelreader/ReaderPanel.kt:366-370 | The appended chunk has, in order: `"\n\n"` only when the document was not empty, `【`, the title, `】`, `"\n\n"`, and the unchanged body. |
| Reader.PrependChunkLayout | src/main/kotlin/com/ch/novelreader/ReaderPanel.kt:423-427 | The prepended chunk has, in order: `【`, the title, `】`, `"\n\n"`, the unchanged body, and a closing `"\n\n"`. |
| Reader.AnchorAfterEviction | src/main/kotlin/com/ch/novelreader/ReaderPanel.kt:388-391 | The new top lies in the document. When the anchor survived the eviction, it is exactly the old top minus what was removed. An anchor inside the removed text goes to 0, and one past the new end goes to the end. |
| Reader.AnchorAfterTopCut | src/main/kotlin/com/ch/novelreader/ReaderPanel.kt:388-391 | A character at or after the evicted prefix of the old document is, after an append and a top eviction, at its old offset minus the removed length. |
| Reader.AnchorAfterInsert | src/main/kotlin/com/ch/novelreader/ReaderPanel.kt:437-451 | A character of the old document that survives an insert at the top and a bottom eviction is at its old offset plus the chunk's length. |
| Reader.ReaderPanel.CurrentChapterHoldsOffset | src/main/kotlin/com/ch/novelreader/ReaderPanel.kt:267-277 | For an offset inside the document, the chapter the scan picks holds it, and no other loaded chapter does. |
| Reader.ReaderPanel.RestoreReadingPosIfMatches | src/main/kotlin/com/ch/novelreader/ReaderPanel.kt:630-640 | A request is issued if and only if the saved chapter is this index and that chapter has a recorded start. It is then the single scroll to that start plus the saved offset, clamped to the document. |
| Reader.ReaderPanel.CaptureRestoreRoundTrip | src/main/kotlin/com/ch/novelreader/ReaderPanel.kt:613-640 | Capturing the position at `top` and then restoring it with the offsets unchanged scrolls back to `top` exactly, for every `top` in the document (0 to its length). |
| Reader.ReaderPanel.constructor | src/main/kotlin/com/ch/novelreader/ReaderPanel.kt:95-101 | The panel starts Valid, with no chapters, an empty document, an empty window and cleared counters. |
| Reader.ReaderPanel.ResetAutoCounters | src/main/kotlin/com/ch/novelreader/ReaderPanel.kt:707-712 | Both directions' counts and times are 0. |
| Reader.ReaderPanel.ClearOffsets | src/main/kotlin/com/ch/novelreader/ReaderPanel.kt:295-298 | Every entry of both tables is -1. |
| Reader.ReaderPanel.ShiftOffsets | src/main/kotlin/com/ch/novelreader/ReaderPanel.kt:531-534 | Both tables become `Shifted` of their old contents. |
| Reader.ReaderPanel.EvictFirst | src/main/kotlin/com/ch/novelreader/ReaderPanel.kt:510-539 | The document loses exactly the prefix up to the first chapter's end, and the window starts one later. The chapters that stay move up by that length. The tables stay well formed. |
| Reader.ReaderPanel.ShrinkFromTopIfNeeded | src/main/kotlin/com/ch/novelreader/ReaderPanel.kt:505-543 | Afterwards the window holds at most eight chapters and has lost only chapters at its start. The return value is the total removed, and the document lost exactly its prefix of that length. Every chapter that stays moves up by that amount and keeps its text, and the new first chapter starts at 0. An empty window is left alone and 0 is returned. |
| Reader.ReaderPanel.SegmentsAfterTopCut | src/main/kotlin/com/ch/novelreader/ReaderPanel.kt:510-539 | After a prefix of the document is removed and every loaded chapter's offsets move up by its length, each loaded chapter reads the same text as before. |
| Reader.ReaderPanel.EvictLast | src/main/kotlin/com/ch/novelreader/ReaderPanel.kt:548-572 | The document is cut at the last chapter's start, and the window ends one earlier. The other chapters keep their offsets. |
| Reader.ReaderPanel.ShrinkFromBottomIfNeeded | src/main/kotlin/com/ch/novelreader/ReaderPanel.kt:545-574 | Afterwards the window holds at most eight chapters and has lost only chapters at its end. The document is a prefix of the old one. Chapters that stay keep their offsets and their text. |
| Reader.ReaderPanel.AddAtEnd | src/main/kotlin/com/ch/novelreader/ReaderPanel.kt:363-376 | The document is the old one followed by the chunk, and the chapter's range is `[old length, new length)`. Earlier chapters are untouched. |
| Reader.ReaderPanel.AddAtTop | src/main/kotlin/com/ch/novelreader/ReaderPanel.kt:429-443 | The document is the chunk followed by the old one, and the chapter's range is 0 up to the chunk's length. Every loaded chapter moves down by the chunk's length and keeps its text. |
| Reader.ReaderPanel.AppendAndShrink | src/main/kotlin/com/ch/novelreader/ReaderPanel.kt:372-379 | The window ends at the new chapter, and its start is the old start or the one the cap of eight forces. The old document plus the chunk equals the removed prefix plus the new document. The new chapter's text is the chunk. Every kept chapter moves up by the removed length and reads as before (AppendedWindow). |
| Reader.ReaderPanel.LoadAndAppendIntoEnd | src/main/kotlin/com/ch/novelreader/ReaderPanel.kt:348-405 | Everything AppendAndShrink states, plus cleared counters (AppendedChapter). The requests are: a jump to the chapter's start after the shrink, or the anchor moved up by the removed length and clamped into the document. Then the saved position, when asked to restore it. |
| Reader.ReaderPanel.StartFromChapter | src/main/kotlin/com/ch/novelreader/ReaderPanel.kt:286-310 | An index outside the chapter list changes nothing. Otherwise the window is `[index, index]` and the document is that chapter's chunk alone. Every other chapter is -1, the view jumps to 0, and then the saved position is restored when asked. |
| Reader.ReaderPanel.AppendChapter | src/main/kotlin/com/ch/novelreader/ReaderPanel.kt:316-331 | It is a no-op unless the window is non-empty and the index is right after it. Otherwise the state is AppendedChapter for the chapter's chunk, with the title jump or the kept anchor's scroll as requests. A kept anchor that was not evicted is scrolled to the same character it showed before. |
| Reader.ReaderPanel.PrependAndShrink | src/main/kotlin/com/ch/novelreader/ReaderPanel.kt:432-451 | The window starts at the new chapter, and its end is the old end or the one the cap of eight forces. The document is a prefix of the chunk followed by the old document. The new chapter's range is 0 up to the chunk's length, and every kept chapter moves down by the chunk's length and reads as before (PrependedWindow). |
| Reader.ReaderPanel.LoadAndPrependIntoTop | src/main/kotlin/com/ch/novelreader/ReaderPanel.kt:407-461 | Everything PrependAndShrink states, plus cleared counters (PrependedChapter). The request is a jump to 0, or a scroll to the anchor plus the chunk's length clamped to the grown document. A kept anchor that was not evicted shows the same character as before. |
| Reader.ReaderPanel.PrependChapter | src/main/kotlin/com/ch/novelreader/ReaderPanel.kt:334-344 | It is a no-op unless the window is non-empty and the index is right before it. Otherwise the state is PrependedChapter for the chapter's chunk, with the same requests and anchor guarantee as LoadAndPrependIntoTop. An unknown top counts as 0. |
| Reader.ReaderPanel.OnChapterSelected | src/main/kotlin/com/ch/novelreader/ReaderPanel.kt:234-255 | A loaded chapter is a jump to its start with nothing else changed. The chapter right after the window is appended (AppendedChapter) with a jump to its start. The one right before is prepended (PrependedChapter) with a jump to 0. Any other chapter restarts the window as `[index, index]`: the document is its chunk alone, every other entry is -1 and the counters are cleared. |
| Reader.ReaderPanel.CurrentChapterIndexFromView | src/main/kotlin/com/ch/novelreader/ReaderPanel.kt:267-277 | With an empty window or an unknown top, the result is the selected index, at least 0. Otherwise it is the first loaded chapter whose range holds the top, or the last loaded chapter. |
| Reader.ReaderPanel.CaptureReadingPos | src/main/kotlin/com/ch/novelreader/ReaderPanel.kt:613-628 | A position is saved if and only if the window is non-empty and the top is known. It is the current chapter, with the top's distance from that chapter's start, at least 0. |
| Reader.ReaderPanel.CountDownWheel | src/main/kotlin/com/ch/novelreader/ReaderPanel.kt:656-670 | The down counter moves as `AutoLoad.WheelStep` says, with "a next chapter exists" as the load condition, and the result is that step's load decision. |
| Reader.ReaderPanel.CountUpWheel | src/main/kotlin/com/ch/novelreader/ReaderPanel.kt:677-691 | The up counter moves as `AutoLoad.WheelStep` says, with "a previous chapter exists" as the load condition, and the result is that step's load decision. |
| Reader.ReaderPanel.OnDownWheel | src/main/kotlin/com/ch/novelreader/ReaderPanel.kt:656-675 | When the step loads, the window gains the next chapter as AppendedChapter states: the cap formula, the kept chapters moved up and reading as before, and cleared counters. The request scrolls the anchor up by what was evicted, to the same character when it survived. Otherwise only the down counter changes, and no request is issued. |
| Reader.ReaderPanel.OnUpWheel | src/main/kotlin/com/ch/novelreader/ReaderPanel.kt:677-695 | When the step loads, the window gains the previous chapter as PrependedChapter states: the cap formula, the kept chapters moved down and reading as before, and cleared counters. The request scrolls the anchor down by the chunk's length, to the same character when it was not evicted. Otherwise only the up counter changes, and no request is issued. |
| Reader.ReaderPanel.PublishChapters | src/main/kotlin/com/ch/novelreader/ReaderPanel.kt:223-230 | The new list is installed with fresh tables of -1 and an empty window. The counters are cleared and the document is unchanged. |
| Reader.ReaderPanel.ResetAllState | src/main/kotlin/com/ch/novelreader/ReaderPanel.kt:576-588 | The window is empty, the counters are cleared and every table entry is -1. The state is Valid when the tables match the list. |

## Left out

- The Swing and IntelliJ UI is not modelled: the panel layout, chapter list widget, toggle button, font, `setUiText` messages and `syncListSelection`/`suppressSelection`.
- Pixel geometry is left out: `topVisibleDocOffset`, `viewToModel2D`/`modelToView2D`, and the scrollbar threshold math of `isAtBottom`/`isAtTop`. The top offset and the at-boundary flags are parameters, and scrolling is the returned `ViewRequest` list.
- The double `invokeLater` deferral and the second clamp in `jumpToOffsetOnce` are left out. They run after layout, which the model does not have.
- File I/O is left out: the novel file, the temporary cache directory and the per-chapter cache files. Lines come in as a sequence, and each chapter's body is kept in the chapter value or passed to the load.
- The line separator that `BufferedWriter.newLine()` writes is platform dependent, so it is a parameter.
- Background tasks are left out. Each load is one atomic step, so interleavings of two pending loads, and the window bound that the panel sets before the load completes, are not modelled.
- Read failures are left out: the `setUiText` error paths of both loads and of the split.
- `refreshFromSettings`, the settings listener, and incremental publishing of the chapter list while the split runs are left out. `PublishChapters` models one publication.
- The 600 ms save throttle (`scheduleSaveReadingPos`, `saveTimer`) and the persistent state bean are left out. The saved position is a parameter and the captured one a result.
- `Reader.ReaderPanel.AppendChapter` requires the appended index to be in the chapter list, and `Reader.ReaderPanel.PrependChapter` requires it to be at least 0. For other indices the panel sets the window bound and then loads nothing. Its only callers, list selection and the wheel handlers, never pass such an index.
- The defensive branches of the shrink loops are not modelled as branches. These are a chapter without a recorded end or start, nothing to remove, and a refused `remove`/`insertString`. The invariant lemmas show they cannot happen on a well-formed window.
- Offsets count Dafny characters (code points), while the panel counts UTF-16 code units. They differ for text outside the Basic Multilingual Plane.
- Integers are unbounded. The panel's `Int` offsets and `Long` times would overflow only at sizes and times the model does not consider.
- `Reader.ReaderPanel.LoadAndAppendIntoEnd` and `Reader.ReaderPanel.LoadAndPrependIntoTop` clear the gesture counters before the document edit, while the panel clears them after issuing the requests. Neither the edit nor the requests read the counters, so the result is the same.
- NovelReaderConfigurable.kt, KeyStrokeCaptureField.kt, NovelReaderState.kt, NovelReaderToolWindowFactory.kt and ReaderTopics.kt are not part of this model.
