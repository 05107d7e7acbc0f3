/**
 * The sliding chapter window of the reader panel.
 *
 * The panel's document holds a contiguous, inclusive run of chapters
 * [loadedStart, loadedEnd], at most MaxKeepChapters of them. Two tables,
 * indexed by chapter, record where each loaded chapter sits in the
 * document; -1 marks a chapter that is not loaded. Chapters join the window
 * at its end (append) or its start (prepend); the window then evicts from
 * the opposite end until it is back within the cap.
 *
 * Loading a chapter's body happens on a worker thread in the panel and its
 * result is applied later on the UI thread; here a load is one atomic step
 * and the body arrives as a parameter. Where the panel moves the view, the
 * operations return the requests it issues, in order, with the offsets
 * clamped as the panel clamps them when it issues them.
 */
module Reader {
  import opened Common
  import opened OffsetTables
  import AutoLoad

  /** MAX_KEEP_CHAPTERS: most chapters the document holds once an operation settles. */
  const MaxKeepChapters := 8

  /** A change of view the panel asks for after changing the document. */
  datatype ViewRequest =
    | JumpTo(offset: int)       // jumpToOffsetStable: caret and viewport to this offset
    | ScrollTopTo(offset: int)  // scrollTopToDocOffsetStable: this offset at the viewport's top

  /** The window's state as an operation finds it: the document, the window and the offset tables. */
  datatype Snapshot = Snapshot(text: string, loadedStart: int, loadedEnd: int, starts: seq<int>, ends: seq<int>)

  /** The persisted reading position (lastChapterIndex, lastOffsetInChapter). */
  datatype ReadingPos = ReadingPos(chapter: int, offsetInChapter: int)

  /** The header line written before every chapter body: "【" + title + "】\n\n". */
  function TitleHeader(title: string): (header: string)
    ensures |header| == |title| + 4
  {
    "【" + title + "】\n\n"
  }

  /**
   * The text appended at the end of a document of length `docLength`: a
   * blank-line separator unless the document is empty, then the header and
   * the body.
   */
  function AppendChunk(title: string, body: string, docLength: int): (chunk: string)
    ensures |chunk| == (if docLength > 0 then 2 else 0) + |title| + 4 + |body|
  {
    (if docLength > 0 then "\n\n" else "") + TitleHeader(title) + body
  }

  /** The text inserted at the top of the document: header, body, blank-line separator. */
  function PrependChunk(title: string, body: string): (chunk: string)
    ensures |chunk| == |title| + 4 + |body| + 2
  {
    TitleHeader(title) + body + "\n\n"
  }

  /**
   * An appended chunk reads, in order: the separator when the document was
   * not empty, the title in brackets, a blank line, and the body unchanged.
   */
  lemma AppendChunkLayout(title: string, body: string, docLength: int)
    ensures var chunk := AppendChunk(title, body, docLength);
            var sep := if docLength > 0 then 2 else 0;
      && chunk[..sep] == (if docLength > 0 then "\n\n" else "")
      && chunk[sep] == '【' && chunk[sep + 1..sep + 1 + |title|] == title && chunk[sep + 1 + |title|] == '】'
      && chunk[sep + 2 + |title|..sep + 4 + |title|] == "\n\n"
      && chunk[sep + 4 + |title|..] == body
  {
    var sep := if docLength > 0 then 2 else 0;
    var chunk := AppendChunk(title, body, docLength);
    var header := TitleHeader(title);
    assert chunk == (if docLength > 0 then "\n\n" else "") + header + body;
    assert header == ['【'] + title + ['】'] + "\n\n";
    assert chunk[sep..sep + |header|] == header;
  }

  /**
   * A prepended chunk reads, in order: the title in brackets, a blank line,
   * the body unchanged and a blank line that separates it from the text
   * below.
   */
  lemma PrependChunkLayout(title: string, body: string)
    ensures var chunk := PrependChunk(title, body);
      && chunk[0] == '【' && chunk[1..1 + |title|] == title && chunk[1 + |title|] == '】'
      && chunk[2 + |title|..4 + |title|] == "\n\n"
      && chunk[4 + |title|..4 + |title| + |body|] == body
      && chunk[|chunk| - 2..] == "\n\n"
  {
    var chunk := PrependChunk(title, body);
    var header := TitleHeader(title);
    assert header == ['【'] + title + ['】'] + "\n\n";
    assert chunk[..|header|] == header;
  }

  /**
   * Where the viewport's top goes after an append that removed `removed`
   * characters from the top: the old top moved up by that much, kept at or
   * after 0 and clamped into the document as scrolling clamps it.
   */
  function AnchorAfterEviction(oldTop: int, removed: int, docLength: int): (top: int)
    requires 0 <= docLength
    ensures 0 <= top <= docLength
    ensures removed <= oldTop <= removed + docLength ==> top == oldTop - removed
    ensures oldTop < removed ==> top == 0
    ensures oldTop > removed + docLength ==> top == docLength
  {
    CoerceIn(CoerceAtLeast(oldTop - removed, 0), 0, docLength)
  }

  // Where a piece of text sits after the text around it changes.

  lemma SuffixSlice(t: string, d: int, a: int, b: int)
    requires 0 <= d <= a <= b <= |t|
    ensures t[d..][a - d..b - d] == t[a..b]
  {
  }

  /** Removing `a` characters from the top and then `b` more removes a + b. */
  lemma PrefixesCompose(t0: string, t1: string, t2: string, a: int, b: int)
    requires 0 <= a <= |t0| && t0[..a] + t1 == t0
    requires 0 <= b <= |t1| && t1[..b] + t2 == t1
    ensures t0[..a + b] + t2 == t0
  {
    assert t0[..a + b] == t0[..a] + t1[..b];
  }

  lemma PrefixSlice(t: string, n: int, a: int, b: int)
    requires 0 <= a <= b <= n <= |t|
    ensures t[..n][a..b] == t[a..b]
  {
  }

  /** A character that an append's eviction from the top left in place moves up by what was evicted. */
  lemma AnchorAfterTopCut(t0: string, t: string, chunk: string, removed: int, k: int)
    requires 0 <= removed <= |t0| && t0[..removed] + t == t0 + chunk && removed <= k < |t0|
    ensures k - removed < |t| && t[k - removed] == t0[k]
  {
    assert (t0[..removed] + t)[k] == t[k - removed];
  }

  /** A character that an insert at the top and an eviction from the bottom left in place moves down by the insert. */
  lemma AnchorAfterInsert(chunk: string, t0: string, t: string, k: int)
    requires |t| <= |chunk| + |t0| && t == (chunk + t0)[..|t|] && 0 <= k && k + |chunk| < |t|
    ensures t[k + |chunk|] == t0[k]
  {
    assert t[k + |chunk|] == (chunk + t0)[k + |chunk|];
  }

  lemma PrependedSlice(c: string, t: string, a: int, b: int)
    requires 0 <= a <= b <= |t|
    ensures (c + t)[|c| + a..|c| + b] == t[a..b]
  {
  }

  class ReaderPanel {
    /** Titles of the published chapters, in order (the chapter list). */
    var titles: seq<string>
    /** The text area's document. */
    var text: string
    /** chapterStartOffsets / chapterEndOffsets: a loaded chapter's range [start, end) in `text`, -1 otherwise. */
    var starts: array<int>
    var ends: array<int>
    /** The loaded window [loadedStart, loadedEnd], both -1 when nothing is loaded. */
    var loadedStart: int
    var loadedEnd: int
    /** The two gesture counters of the sustained-scroll detector. */
    var downCount: int
    var lastDownTime: int
    var upCount: int
    var lastUpTime: int

    /** Chapter `i` is inside the loaded window. */
    predicate InWindow(i: int)
      reads this
    {
      0 <= loadedStart <= i <= loadedEnd
    }

    function WindowSize(): int
      reads this
    {
      loadedEnd - loadedStart + 1
    }

    /**
     * The offset tables describe the window: the loaded chapters' ranges are
     * non-empty and tile the whole document in chapter order, starting at 0,
     * and every chapter outside the window is marked -1.
     */
    ghost predicate WellFormed()
      reads this, starts, ends
    {
      && starts != ends
      && starts.Length == |titles| && ends.Length == |titles|
      && Tiles(starts[..], ends[..], loadedStart, loadedEnd, |text|)
    }

    /** The state between operations: well formed and within the cap. */
    ghost predicate Valid()
      reads this, starts, ends
    {
      WellFormed() && WindowSize() <= MaxKeepChapters
    }

    /** All four gesture counters are cleared (resetAutoCounters). */
    predicate CountersCleared()
      reads this
    {
      downCount == 0 && lastDownTime == 0 && upCount == 0 && lastUpTime == 0
    }

    /** There is a next chapter to append (the guard of onDownWheel). */
    predicate CanAppendNext()
      reads this
    {
      0 <= loadedEnd && loadedEnd + 1 < |titles|
    }

    /** There is a previous chapter to prepend (the guard of onUpWheel). */
    predicate CanPrependPrevious()
      reads this
    {
      0 <= loadedStart && 0 <= loadedStart - 1
    }

    /**
     * The test currentChapterIndexFromView applies to chapter `i`: its range
     * is recorded, non-empty and holds `off`; an index outside the tables
     * reads as -1.
     */
    predicate ChapterHolds(i: int, off: int)
      reads this, starts, ends
    {
      && 0 <= i < starts.Length && 0 <= i < ends.Length
      && starts[i] >= 0 && ends[i] > starts[i] && starts[i] <= off < ends[i]
    }

    /**
     * `idx` is the chapter currentChapterIndexFromView names for `off`: the
     * first chapter of the window that holds it, or the last chapter of the
     * window when none does.
     */
    ghost predicate IsCurrentChapter(idx: int, off: int)
      reads this, starts, ends
    {
      && loadedStart <= idx <= loadedEnd
      && (forall j :: loadedStart <= j < idx ==> !ChapterHolds(j, off))
      && (ChapterHolds(idx, off) || idx == loadedEnd)
    }

    /** A loaded chapter's range lies inside the document. */
    lemma OffsetsInRange(i: int)
      requires WellFormed() && InWindow(i)
      ensures 0 <= starts[i] < ends[i] <= |text|
    {
      assert starts[..][i] == starts[i] && ends[..][i] == ends[i];
    }

    /** Loaded chapters come in document order. */
    lemma OffsetsOrdered(i: int, j: int)
      requires WellFormed() && InWindow(i) && InWindow(j) && i < j
      ensures ends[i] <= starts[j]
    {
      TilesOrdered(starts[..], ends[..], loadedStart, loadedEnd, |text|, i, j);
      assert starts[..][j] == starts[j] && ends[..][i] == ends[i];
    }

    /** The text of chapter `i`, when its range lies inside the document. */
    ghost function Segment(i: int): string
      reads this`text, this`starts, this`ends, starts, ends
      requires 0 <= i < starts.Length && 0 <= i < ends.Length
      requires 0 <= starts[i] <= ends[i] <= |text|
    {
      text[starts[i]..ends[i]]
    }

    /** What an operation reads of the window before it changes it. */
    function Snap(): Snapshot
      reads this`text, this`loadedStart, this`loadedEnd, this`starts, this`ends, starts, ends
    {
      Snapshot(text, loadedStart, loadedEnd, starts[..], ends[..])
    }

    /**
     * Chapter `i` has a range in the document both in the state `before`
     * and now, and its text reads the same.
     */
    ghost predicate KeptChapter(i: int, before: Snapshot)
      reads this`text, this`starts, this`ends, starts, ends
    {
      && 0 <= i < starts.Length && i < ends.Length && i < |before.starts| && i < |before.ends|
      && 0 <= before.starts[i] <= before.ends[i] <= |before.text|
      && 0 <= starts[i] <= ends[i] <= |text|
      && Segment(i) == before.text[before.starts[i]..before.ends[i]]
    }

    /**
     * The document and window after chapter `index`, whose text is `chunk`,
     * joined the window of `before` at its end: the window ends with it and
     * keeps at most MaxKeepChapters chapters, the document is the old one
     * with the chunk appended and some text evicted from its top, the chunk
     * is the new chapter's text, and every chapter kept moved up by what was
     * evicted and reads as before.
     */
    ghost predicate AppendedWindow(index: int, chunk: string, before: Snapshot)
      reads this`text, this`loadedStart, this`loadedEnd, this`starts, this`ends, starts, ends
    {
      && 0 <= index < starts.Length && index < ends.Length
      && loadedEnd == index
      && loadedStart == (if before.loadedStart < index - MaxKeepChapters + 1 then index - MaxKeepChapters + 1 else before.loadedStart)
      && var removed := |before.text| + |chunk| - |text|;
      && 0 <= removed <= |before.text|
      && before.text[..removed] + text == before.text + chunk
      && 0 <= starts[index] <= ends[index] <= |text| && Segment(index) == chunk
      && (forall i :: loadedStart <= i < index ==>
            KeptChapter(i, before) && starts[i] == before.starts[i] - removed && ends[i] == before.ends[i] - removed)
    }

    /** The state after an append: the window as AppendedWindow says, and the counters cleared. */
    ghost predicate AppendedChapter(index: int, chunk: string, before: Snapshot)
      reads this, starts, ends
    {
      AppendedWindow(index, chunk, before) && CountersCleared()
    }

    /**
     * The document and window after chapter `index`, whose text is `chunk`,
     * joined the window of `before` at its start: the window starts with it
     * and keeps at most MaxKeepChapters chapters, the document is the chunk
     * followed by the old one, cut short where chapters were evicted from
     * the bottom, the chunk is the new chapter's text at offset 0, and every
     * chapter kept moved down by the chunk and reads as before.
     */
    ghost predicate PrependedWindow(index: int, chunk: string, before: Snapshot)
      reads this`text, this`loadedStart, this`loadedEnd, this`starts, this`ends, starts, ends
    {
      && 0 <= index < starts.Length && index < ends.Length
      && loadedStart == index
      && loadedEnd == (if before.loadedEnd > index + MaxKeepChapters - 1 then index + MaxKeepChapters - 1 else before.loadedEnd)
      && |chunk| <= |text| <= |chunk| + |before.text|
      && text == (chunk + before.text)[..|text|]
      && starts[index] == 0 && ends[index] == |chunk| && Segment(index) == chunk
      && (forall i :: index < i <= loadedEnd ==>
            KeptChapter(i, before) && starts[i] == before.starts[i] + |chunk| && ends[i] == before.ends[i] + |chunk|)
    }

    /** The state after a prepend: the window as PrependedWindow says, and the counters cleared. */
    ghost predicate PrependedChapter(index: int, chunk: string, before: Snapshot)
      reads this, starts, ends
    {
      PrependedWindow(index, chunk, before) && CountersCleared()
    }

    /**
     * For an offset inside the document, the current chapter is the one and
     * only loaded chapter whose range holds it.
     */
    lemma CurrentChapterHoldsOffset(idx: int, off: int)
      requires WellFormed() && 0 <= loadedStart && 0 <= off < |text|
      requires IsCurrentChapter(idx, off)
      ensures ChapterHolds(idx, off)
      ensures forall j :: InWindow(j) && j != idx ==> !ChapterHolds(j, off)
    {
      TilesCover(starts[..], ends[..], loadedStart, loadedEnd, |text|, off, loadedStart);
      var j :| loadedStart <= j <= loadedEnd && starts[..][j] <= off < ends[..][j];
      OffsetsInRange(j);
      assert ChapterHolds(j, off);
      forall k | InWindow(k) && k != idx && ChapterHolds(k, off)
        ensures false
      {
        if idx < k {
          OffsetsOrdered(idx, k);
        }
      }
    }

    /**
     * restoreReadingPosIfMatches: only for the chapter the saved position
     * names and only when it is loaded, scroll so that the saved offset
     * within that chapter is at the top, clamped into the document.
     */
    function RestoreReadingPosIfMatches(index: int, saved: ReadingPos): (requests: seq<ViewRequest>)
      reads this`text, this`starts, starts
      ensures requests != [] <==> saved.chapter == index && 0 <= index < starts.Length && starts[index] >= 0
      ensures requests != [] ==> requests == [ScrollTopTo(CoerceIn(starts[index] + saved.offsetInChapter, 0, |text|))]
      ensures requests != [] ==> 0 <= requests[0].offset <= |text|
    {
      if saved.chapter != index then []
      else
        var start := if 0 <= index < starts.Length then starts[index] else -1;
        if start < 0 then []
        else [ScrollTopTo(CoerceIn(start + saved.offsetInChapter, 0, |text|))]
    }

    /**
     * Capturing the position at `top` and restoring it with the offsets
     * unchanged scrolls back to `top`, for every `top` inside the document.
     */
    lemma CaptureRestoreRoundTrip(idx: int, top: int)
      requires WellFormed() && 0 <= loadedStart
      requires 0 <= top <= |text| && IsCurrentChapter(idx, top)
      ensures RestoreReadingPosIfMatches(idx, ReadingPos(idx, CoerceAtLeast(top - starts[idx], 0)))
              == [ScrollTopTo(top)]
    {
      OffsetsInRange(idx);
      if top < |text| {
        CurrentChapterHoldsOffset(idx, top);
      } else {
        OffsetsInRange(loadedEnd);
        assert ends[..][loadedEnd] == ends[loadedEnd];
        if idx < loadedEnd {
          OffsetsOrdered(idx, loadedEnd);
        }
      }
    }

    /** The panel's initial state: no chapters, an empty document, nothing loaded. */
    constructor ()
      ensures Valid() && titles == [] && text == []
      ensures loadedStart == -1 && loadedEnd == -1 && CountersCleared()
    {
      titles := [];
      text := [];
      starts := new int[0];
      ends := new int[0];
      loadedStart, loadedEnd := -1, -1;
      downCount, lastDownTime, upCount, lastUpTime := 0, 0, 0, 0;
      new;
      TilesCleared(0, 0);
      assert starts[..] == seq(0, _ => -1) && ends[..] == seq(0, _ => -1);
    }

    /** resetAutoCounters */
    method ResetAutoCounters()
      modifies this`downCount, this`lastDownTime, this`upCount, this`lastUpTime
      ensures CountersCleared()
    {
      downCount := 0;
      lastDownTime := 0;
      upCount := 0;
      lastUpTime := 0;
    }

    /** The loop that marks every chapter as not loaded. */
    method ClearOffsets()
      requires starts != ends && starts.Length == ends.Length
      modifies starts, ends
      ensures starts[..] == seq(starts.Length, _ => -1) && ends[..] == seq(ends.Length, _ => -1)
    {
      var i := 0;
      while i < starts.Length
        invariant 0 <= i <= starts.Length
        invariant forall j :: 0 <= j < i ==> starts[j] == -1 && ends[j] == -1
      {
        starts[i] := -1;
        ends[i] := -1;
        i := i + 1;
      }
    }

    /**
     * The loop that moves the recorded offsets of chapters `from` to `to` by
     * `delta`, leaving -1 entries alone.
     */
    method ShiftOffsets(from: int, to: int, delta: int)
      requires starts != ends && starts.Length == ends.Length
      requires 0 <= from <= to + 1 && to < starts.Length
      modifies starts, ends
      ensures starts[..] == Shifted(old(starts[..]), from, to, delta)
      ensures ends[..] == Shifted(old(ends[..]), from, to, delta)
    {
      var i := from;
      while i <= to
        invariant from <= i <= to + 1
        invariant starts[..] == Shifted(old(starts[..]), from, i - 1, delta)
        invariant ends[..] == Shifted(old(ends[..]), from, i - 1, delta)
      {
        if starts[i] >= 0 {
          starts[i] := starts[i] + delta;
        }
        if ends[i] >= 0 {
          ends[i] := ends[i] + delta;
        }
        assert starts[..] == Shifted(old(starts[..]), from, i, delta);
        assert ends[..] == Shifted(old(ends[..]), from, i, delta);
        i := i + 1;
      }
    }

    /**
     * One pass of shrinkFromTopIfNeeded's loop: removes the first loaded
     * chapter's text from the top of the document, marks it -1 and moves the
     * later loaded chapters up by the removed length. The panel skips a
     * chapter without a recorded end and gives up when the document refuses
     * the removal; neither can happen on a well-formed window.
     */
    method EvictFirst() returns (end: int)
      requires WellFormed() && 0 <= loadedStart < loadedEnd
      modifies this`text, this`loadedStart, starts, ends
      ensures WellFormed() && loadedStart == old(loadedStart) + 1
      ensures end == old(ends[loadedStart]) && 0 < end <= |old(text)| && old(text)[..end] + text == old(text)
      ensures forall i :: InWindow(i) ==> starts[i] == old(starts[i]) - end && ends[i] == old(ends[i]) - end
    {
      var chapter := loadedStart;
      end := ends[chapter];
      ghost var s0, e0 := starts[..], ends[..];
      TilesAfterEvictFirst(s0, e0, loadedStart, loadedEnd, |text|);
      forall i | chapter < i <= loadedEnd
        ensures s0[i] >= 0 && e0[i] >= 0
      {
        OffsetsInRange(i);
      }
      text := text[end..];
      starts[chapter] := -1;
      ends[chapter] := -1;
      ShiftOffsets(chapter + 1, loadedEnd, -end);
      ghost var shifted := starts[..];
      if starts[chapter + 1] >= 0 {
        starts[chapter + 1] := 0;
      }
      assert starts[..] == shifted;
      loadedStart := chapter + 1;
      forall i | InWindow(i)
        ensures starts[i] == s0[i] - end && ends[i] == e0[i] - end
      {
        assert starts[..][i] == starts[i] && ends[..][i] == ends[i];
      }
    }

    /**
     * shrinkFromTopIfNeeded: evicts chapters from the start of the window
     * until it is within the cap. Returns the number of characters removed
     * from the top of the document in all.
     */
    method ShrinkFromTopIfNeeded() returns (removed: int)
      requires WellFormed()
      modifies this`text, this`loadedStart, starts, ends
      ensures Valid()
      ensures old(loadedStart) < 0 ==> loadedStart == old(loadedStart) && text == old(text) && removed == 0
      ensures 0 <= old(loadedStart) ==>
        loadedStart == (if old(loadedStart) < loadedEnd - MaxKeepChapters + 1 then loadedEnd - MaxKeepChapters + 1 else old(loadedStart))
      ensures 0 <= removed <= |old(text)| && old(text)[..removed] + text == old(text)
      ensures forall i :: InWindow(i) ==>
        old(InWindow(i)) && starts[i] == old(starts[i]) - removed && ends[i] == old(ends[i]) - removed
      ensures forall i :: InWindow(i) ==> Segment(i) == old(Segment(i))
    {
      removed := 0;
      if loadedStart < 0 || loadedEnd < 0 {
        return;
      }
      ghost var text0, starts0, ends0 := text, starts[..], ends[..];
      while loadedEnd - loadedStart + 1 > MaxKeepChapters
        invariant WellFormed()
        invariant old(loadedStart) <= loadedStart <= loadedEnd
        invariant loadedStart == old(loadedStart) || WindowSize() >= MaxKeepChapters
        invariant 0 <= removed <= |text0| && text0[..removed] + text == text0
        invariant forall i :: InWindow(i) ==> starts[i] == starts0[i] - removed && ends[i] == ends0[i] - removed
        decreases loadedEnd - loadedStart
      {
        ghost var before, starts1, ends1 := text, starts[..], ends[..];
        var end := EvictFirst();
        PrefixesCompose(text0, before, text, removed, end);
        forall i | InWindow(i)
          ensures starts[i] == starts0[i] - (removed + end) && ends[i] == ends0[i] - (removed + end)
        {
          assert starts1[i] == starts0[i] - removed && ends1[i] == ends0[i] - removed;
        }
        removed := removed + end;
      }
      assert text == text0[removed..];
      SegmentsAfterTopCut(text0, starts0, ends0, removed);
    }

    /**
     * After the first `removed` characters of `text0` were cut and every
     * loaded chapter moved up by as much, each loaded chapter reads as it
     * did in `text0`.
     */
    lemma SegmentsAfterTopCut(text0: string, starts0: seq<int>, ends0: seq<int>, removed: int)
      requires WellFormed() && 0 <= removed <= |text0| && text == text0[removed..]
      requires |starts0| == starts.Length && |ends0| == ends.Length
      requires forall i :: InWindow(i) ==> starts[i] == starts0[i] - removed && ends[i] == ends0[i] - removed
      ensures forall i :: InWindow(i) ==>
        0 <= starts0[i] <= ends0[i] <= |text0| && Segment(i) == text0[starts0[i]..ends0[i]]
    {
      forall i | InWindow(i)
        ensures 0 <= starts0[i] <= ends0[i] <= |text0| && Segment(i) == text0[starts0[i]..ends0[i]]
      {
        OffsetsInRange(i);
        SuffixSlice(text0, removed, starts0[i], ends0[i]);
      }
    }

    /**
     * One pass of shrinkFromBottomIfNeeded's loop: cuts the document at the
     * last loaded chapter's start and marks that chapter -1. The panel skips
     * a chapter without a recorded start or with nothing after its start,
     * and gives up when the document refuses the removal; none of these can
     * happen on a well-formed window.
     */
    method EvictLast()
      requires WellFormed() && 0 <= loadedStart < loadedEnd
      modifies this`text, this`loadedEnd, starts, ends
      ensures WellFormed() && loadedEnd == old(loadedEnd) - 1
      ensures |text| == old(starts[loadedEnd]) < |old(text)| && text == old(text)[..|text|]
      ensures forall i :: InWindow(i) ==> starts[i] == old(starts[i]) && ends[i] == old(ends[i])
    {
      var chapter := loadedEnd;
      var start := starts[chapter];
      TilesAfterEvictLast(starts[..], ends[..], loadedStart, loadedEnd, |text|);
      text := text[..start];
      starts[chapter] := -1;
      ends[chapter] := -1;
      loadedEnd := chapter - 1;
    }

    /**
     * shrinkFromBottomIfNeeded: evicts chapters from the end of the window
     * until it is within the cap; the chapters that stay keep their offsets.
     */
    method ShrinkFromBottomIfNeeded()
      requires WellFormed()
      modifies this`text, this`loadedEnd, starts, ends
      ensures Valid()
      ensures old(loadedStart) < 0 ==> loadedEnd == old(loadedEnd) && text == old(text)
      ensures 0 <= loadedStart ==>
        loadedEnd == (if old(loadedEnd) > loadedStart + MaxKeepChapters - 1 then loadedStart + MaxKeepChapters - 1 else old(loadedEnd))
      ensures |text| <= |old(text)| && text == old(text)[..|text|]
      ensures forall i :: InWindow(i) ==> old(InWindow(i)) && starts[i] == old(starts[i]) && ends[i] == old(ends[i])
      ensures forall i :: InWindow(i) ==> Segment(i) == old(Segment(i))
    {
      if loadedStart < 0 || loadedEnd < 0 {
        return;
      }
      ghost var text0, starts0, ends0 := text, starts[..], ends[..];
      while loadedEnd - loadedStart + 1 > MaxKeepChapters
        invariant WellFormed()
        invariant 0 <= loadedStart <= loadedEnd <= old(loadedEnd)
        invariant loadedEnd == old(loadedEnd) || WindowSize() >= MaxKeepChapters
        invariant |text| <= |text0| && text == text0[..|text|]
        invariant forall i :: InWindow(i) ==> starts[i] == starts0[i] && ends[i] == ends0[i]
        decreases loadedEnd - loadedStart
      {
        EvictLast();
      }
      forall i | InWindow(i)
        ensures Segment(i) == old(Segment(i))
      {
        OffsetsInRange(i);
        PrefixSlice(text0, |text|, starts0[i], ends0[i]);
      }
    }

    /**
     * The document edit of loadAndAppendIntoEnd: appends `chunk` as chapter
     * `index`, right after the window (or as the only chapter of an empty
     * window and document), and records its range.
     */
    method AddAtEnd(index: int, chunk: string)
      requires WellFormed() && 0 <= index < |titles| && chunk != []
      requires if loadedEnd < 0 then text == [] else index == loadedEnd + 1
      modifies this`text, this`loadedStart, this`loadedEnd, starts, ends
      ensures WellFormed() && loadedEnd == index
      ensures loadedStart == if old(loadedStart) < 0 then index else old(loadedStart)
      ensures text == old(text) + chunk
      ensures starts[index] == |old(text)| && ends[index] == |text| && Segment(index) == chunk
      ensures forall i :: loadedStart <= i < index ==>
        old(InWindow(i)) && starts[i] == old(starts[i]) && ends[i] == old(ends[i]) && Segment(i) == old(Segment(i))
    {
      ghost var text0, starts0, ends0 := text, starts[..], ends[..];
      TilesAfterAppend(starts0, ends0, loadedStart, loadedEnd, |text|, index, |chunk|);
      var start := |text|;
      text := text + chunk;
      starts[index] := start;
      ends[index] := |text|;
      assert starts[..] == starts0[index := start] && ends[..] == ends0[index := |text|];
      if loadedStart < 0 {
        loadedStart := index;
      }
      loadedEnd := index;
      assert text[start..] == chunk;
    }

    /**
     * The document edit of loadAndPrependIntoTop: inserts `chunk` at offset 0
     * as chapter `index`, right before the window, moves every loaded chapter
     * down by its length and records the new chapter's range.
     */
    method AddAtTop(index: int, chunk: string)
      requires WellFormed() && 0 <= index && index == loadedStart - 1 && chunk != []
      modifies this`text, this`loadedStart, starts, ends
      ensures WellFormed() && loadedStart == index
      ensures text == chunk + old(text)
      ensures starts[index] == 0 && ends[index] == |chunk| && Segment(index) == chunk
      ensures forall i :: index < i <= loadedEnd ==>
        && old(InWindow(i)) && starts[i] == old(starts[i]) + |chunk| && ends[i] == old(ends[i]) + |chunk|
        && Segment(i) == old(Segment(i))
    {
      ghost var text0, starts0, ends0 := text, starts[..], ends[..];
      TilesAfterPrepend(starts0, ends0, loadedStart, loadedEnd, |text|, |chunk|);
      loadedStart := index;
      // insertString at offset 0 cannot be refused
      text := chunk + text;
      ShiftOffsets(index + 1, loadedEnd, |chunk|);
      starts[index] := 0;
      ends[index] := |chunk|;
      assert starts[..] == Shifted(starts0, index + 1, loadedEnd, |chunk|)[index := 0];
      assert ends[..] == Shifted(ends0, index + 1, loadedEnd, |chunk|)[index := |chunk|];
      assert text[..|chunk|] == chunk;
      PrependedSegments(chunk);
    }

    /** After AddAtTop's edit, every chapter that was loaded moves down by the chunk and keeps its text. */
    twostate lemma PrependedSegments(chunk: string)
      requires old(WellFormed()) && old(starts) == starts && old(ends) == ends
      requires 1 <= old(loadedStart) && loadedEnd == old(loadedEnd)
      requires text == chunk + old(text)
      requires starts[..] == Shifted(old(starts[..]), old(loadedStart), loadedEnd, |chunk|)[old(loadedStart) - 1 := 0]
      requires ends[..] == Shifted(old(ends[..]), old(loadedStart), loadedEnd, |chunk|)[old(loadedStart) - 1 := |chunk|]
      ensures forall i :: old(loadedStart) <= i <= loadedEnd ==>
        && old(InWindow(i)) && starts[i] == old(starts[i]) + |chunk| && ends[i] == old(ends[i]) + |chunk|
        && 0 <= starts[i] <= ends[i] <= |text| && Segment(i) == old(Segment(i))
    {
      forall i | old(loadedStart) <= i <= loadedEnd
        ensures old(InWindow(i)) && starts[i] == old(starts[i]) + |chunk| && ends[i] == old(ends[i]) + |chunk|
        ensures 0 <= starts[i] <= ends[i] <= |text| && Segment(i) == old(Segment(i))
      {
        assert starts[..][i] == starts[i] && ends[..][i] == ends[i];
        assert old(starts[..][i] == starts[i] && ends[..][i] == ends[i]);
        PrependedSlice(chunk, old(text), old(starts[i]), old(ends[i]));
      }
    }

    /**
     * The document side of loadAndAppendIntoEnd: AddAtEnd, then
     * shrinkFromTopIfNeeded. Returns what the shrink removed from the top.
     */
    method AppendAndShrink(index: int, chunk: string) returns (removed: int)
      requires Valid() && 0 <= index < |titles| && chunk != []
      requires if loadedEnd < 0 then text == [] else index == loadedEnd + 1
      modifies this`text, this`loadedStart, this`loadedEnd, starts, ends
      ensures Valid() && loadedEnd == index
      ensures old(loadedStart) < 0 ==> loadedStart == index
      ensures 0 <= removed <= |old(text)| && old(text)[..removed] + text == old(text) + chunk
      ensures starts[index] == |old(text)| - removed && ends[index] == |text| && Segment(index) == chunk
      ensures 0 <= old(loadedStart) ==> AppendedWindow(index, chunk, old(Snap()))
    {
      ghost var before := Snap();
      AddAtEnd(index, chunk);
      label added:
      removed := ShrinkFromTopIfNeeded();
      assert InWindow(index);
      OffsetsInRange(index);
      assert Segment(index) == chunk by {
        assert Segment(index) == old@added(Segment(index));
      }
      if 0 <= before.loadedStart {
        forall i | loadedStart <= i < index
          ensures KeptChapter(i, before) && starts[i] == before.starts[i] - removed && ends[i] == before.ends[i] - removed
        {
          assert InWindow(i);
          OffsetsInRange(i);
          assert Segment(i) == old@added(Segment(i));
        }
      }
    }

    /**
     * loadAndAppendIntoEnd, once the body is read: appends the chunk, records
     * the chapter's range, shrinks from the top and issues the view
     * requests: the chapter's title, or the reading anchor moved up by what
     * the shrink removed, then the saved position when asked to restore it.
     * The panel widens the window before the load; here the load does it.
     */
    method LoadAndAppendIntoEnd(index: int, oldTop: Option<int>, jumpToTitle: bool,
                                tryRestorePos: bool, saved: ReadingPos, body: string)
      returns (requests: seq<ViewRequest>)
      requires Valid() && 0 <= index < |titles|
      requires if loadedEnd < 0 then text == [] else index == loadedEnd + 1
      modifies this, starts, ends
      ensures Valid() && CountersCleared()
      ensures titles == old(titles) && starts == old(starts) && ends == old(ends)
      ensures loadedEnd == index && (old(loadedStart) < 0 ==> loadedStart == index)
      ensures var chunk := AppendChunk(titles[index], body, |old(text)|);
              var removed := |old(text)| + |chunk| - |text|;
        && 0 <= removed <= |old(text)|
        && old(text)[..removed] + text == old(text) + chunk
        && starts[index] == |old(text)| - removed && ends[index] == |text|
        && Segment(index) == chunk
      ensures 0 <= old(loadedStart) ==> AppendedChapter(index, AppendChunk(titles[index], body, |old(text)|), old(Snap()))
      ensures var removed := |old(text)| + |AppendChunk(titles[index], body, |old(text)|)| - |text|;
        requests ==
             (if jumpToTitle then [JumpTo(starts[index])]
              else if oldTop.Some? then [ScrollTopTo(AnchorAfterEviction(oldTop.value, removed, |text|))]
              else [])
             + (if tryRestorePos then RestoreReadingPosIfMatches(index, saved) else [])
    {
      var chunk := AppendChunk(titles[index], body, |text|);
      // the panel clears the counters last; the append and the shrink do not read them
      ResetAutoCounters();
      var removed := AppendAndShrink(index, chunk);
      requests :=
        (if jumpToTitle then [JumpTo(CoerceIn(CoerceAtLeast(starts[index], 0), 0, |text|))]
         else if oldTop.Some? then [ScrollTopTo(AnchorAfterEviction(oldTop.value, removed, |text|))]
         else [])
        + (if tryRestorePos then RestoreReadingPosIfMatches(index, saved) else []);
    }

    /**
     * startFromChapter: for a chapter of the list, clears the document and
     * every recorded offset and loads that chapter alone, jumping to its
     * title and then, when asked, to the saved position within it. Any other
     * index is ignored.
     */
    method StartFromChapter(index: int, tryRestorePos: bool, saved: ReadingPos, body: string)
      returns (requests: seq<ViewRequest>)
      requires Valid()
      modifies this, starts, ends
      ensures Valid()
      ensures titles == old(titles) && starts == old(starts) && ends == old(ends)
      ensures !(0 <= index < |titles|) ==> requests == [] && unchanged(this, starts, ends)
      ensures 0 <= index < |titles| ==>
        && loadedStart == index && loadedEnd == index
        && text == AppendChunk(titles[index], body, 0)
        && starts[index] == 0 && ends[index] == |text|
        && (forall i :: 0 <= i < |titles| && i != index ==> starts[i] == -1 && ends[i] == -1)
        && requests == [JumpTo(0)] + (if tryRestorePos then RestoreReadingPosIfMatches(index, saved) else [])
        && CountersCleared()
    {
      if !(0 <= index < |titles|) {
        return [];
      }
      ResetAutoCounters();
      text := [];
      ClearOffsets();
      loadedStart, loadedEnd := -1, -1;
      requests := LoadAndAppendIntoEnd(index, None, true, tryRestorePos, saved, body);
    }

    /**
     * appendChapter: only the chapter right after the window is appended;
     * any other index is ignored. The reading anchor `top` is kept only when
     * asked to and not jumping to the title.
     */
    method AppendChapter(index: int, jumpToTitle: bool, keepReadingAnchor: bool,
                         top: Option<int>, body: string)
      returns (requests: seq<ViewRequest>)
      requires Valid()
      requires 0 <= loadedEnd && index == loadedEnd + 1 ==> index < |titles|
      modifies this, starts, ends
      ensures Valid()
      ensures titles == old(titles) && starts == old(starts) && ends == old(ends)
      ensures !(0 <= old(loadedEnd) && index == old(loadedEnd) + 1) ==> requests == [] && unchanged(this, starts, ends)
      ensures 0 <= old(loadedEnd) && index == old(loadedEnd) + 1 ==>
        && AppendedChapter(index, AppendChunk(titles[index], body, |old(text)|), old(Snap()))
        && var removed := |old(text)| + |AppendChunk(titles[index], body, |old(text)|)| - |text|;
        && requests ==
             (if jumpToTitle then [JumpTo(starts[index])]
              else if keepReadingAnchor && top.Some? then [ScrollTopTo(AnchorAfterEviction(top.value, removed, |text|))]
              else [])
        // a kept anchor that was not evicted still shows the same character
        && (!jumpToTitle && keepReadingAnchor && top.Some? && removed <= top.value < |old(text)| ==>
              requests == [ScrollTopTo(top.value - removed)] && text[top.value - removed] == old(text)[top.value])
    {
      if loadedEnd < 0 {
        return [];
      }
      if index != loadedEnd + 1 {
        return [];
      }
      var oldTop := if keepReadingAnchor && !jumpToTitle then top else None;
      requests := LoadAndAppendIntoEnd(index, oldTop, jumpToTitle, false, ReadingPos(-1, 0), body);
      ghost var removed := |old(text)| + |AppendChunk(titles[index], body, |old(text)|)| - |text|;
      if oldTop.Some? && removed <= oldTop.value < |old(text)| {
        AnchorAfterTopCut(old(text), text, AppendChunk(titles[index], body, |old(text)|), removed, oldTop.value);
      }
    }

    /**
     * The document side of loadAndPrependIntoTop: AddAtTop, then
     * shrinkFromBottomIfNeeded.
     */
    method PrependAndShrink(index: int, chunk: string)
      requires Valid() && 0 <= index && index == loadedStart - 1 && chunk != []
      modifies this`text, this`loadedStart, this`loadedEnd, starts, ends
      ensures Valid() && PrependedWindow(index, chunk, old(Snap()))
    {
      ghost var before := Snap();
      AddAtTop(index, chunk);
      label added:
      ShrinkFromBottomIfNeeded();
      assert InWindow(index);
      assert Segment(index) == chunk by {
        assert Segment(index) == old@added(Segment(index));
      }
      forall i | index < i <= loadedEnd
        ensures KeptChapter(i, before) && starts[i] == before.starts[i] + |chunk| && ends[i] == before.ends[i] + |chunk|
      {
        assert InWindow(i);
        OffsetsInRange(i);
        assert Segment(i) == old@added(Segment(i));
      }
    }

    /**
     * loadAndPrependIntoTop, once the body is read: inserts the chunk at
     * offset 0, moves every loaded chapter down by its length, records the
     * chapter's range, issues the view request (the reading anchor moved
     * down by the chunk, or the top of the document) and shrinks from the
     * bottom. The panel widens the window before the load; here the load
     * does it.
     */
    method LoadAndPrependIntoTop(index: int, oldTop: int, jumpToTitle: bool, body: string)
      returns (requests: seq<ViewRequest>)
      requires Valid() && 0 <= index && index == loadedStart - 1
      modifies this, starts, ends
      ensures Valid()
      ensures titles == old(titles) && starts == old(starts) && ends == old(ends)
      ensures PrependedChapter(index, PrependChunk(titles[index], body), old(Snap()))
      ensures var chunk := PrependChunk(titles[index], body);
        && requests ==
             (if jumpToTitle then [JumpTo(0)]
              else [ScrollTopTo(CoerceIn(oldTop + |chunk|, 0, |chunk| + |old(text)|))])
        // a kept anchor still shows the same character, unless evicted
        && (!jumpToTitle && 0 <= oldTop && oldTop + |chunk| < |text| ==>
              requests == [ScrollTopTo(oldTop + |chunk|)] && text[oldTop + |chunk|] == old(text)[oldTop])
    {
      var chunk := PrependChunk(titles[index], body);
      var insertLen := |chunk|;
      // the document's length right after the insert, which the scroll is clamped to
      var grownLength := insertLen + |text|;
      // the requests depend only on lengths known before the document changes
      requests := if !jumpToTitle then [ScrollTopTo(CoerceIn(oldTop + insertLen, 0, grownLength))]
                  else [JumpTo(CoerceIn(0, 0, grownLength))];
      assert requests == (if jumpToTitle then [JumpTo(0)]
                          else [ScrollTopTo(CoerceIn(oldTop + |chunk|, 0, |chunk| + |text|))]);
      // the panel clears the counters last; the insert and the shrink do not read them
      ResetAutoCounters();
      PrependAndShrink(index, chunk);
      if !jumpToTitle && 0 <= oldTop && oldTop + insertLen < |text| {
        AnchorAfterInsert(chunk, old(text), text, oldTop);
      }
    }

    /**
     * prependChapter: only the chapter right before the window is
     * prepended; any other index is ignored. The reading anchor is the
     * top offset `top`, or 0 when it is unknown.
     */
    method PrependChapter(index: int, jumpToTitle: bool, top: Option<int>, body: string)
      returns (requests: seq<ViewRequest>)
      requires Valid()
      requires 0 <= loadedStart && index == loadedStart - 1 ==> 0 <= index
      modifies this, starts, ends
      ensures Valid()
      ensures titles == old(titles) && starts == old(starts) && ends == old(ends)
      ensures !(0 <= old(loadedStart) && index == old(loadedStart) - 1) ==> requests == [] && unchanged(this, starts, ends)
      ensures 0 <= old(loadedStart) && index == old(loadedStart) - 1 ==>
        && PrependedChapter(index, PrependChunk(titles[index], body), old(Snap()))
        && var chunk := PrependChunk(titles[index], body);
           var oldTop := if top.Some? then top.value else 0;
        && requests ==
             (if jumpToTitle then [JumpTo(0)]
              else [ScrollTopTo(CoerceIn(oldTop + |chunk|, 0, |chunk| + |old(text)|))])
        // a kept anchor still shows the same character, unless evicted
        && (!jumpToTitle && 0 <= oldTop && oldTop + |chunk| < |text| ==>
              requests == [ScrollTopTo(oldTop + |chunk|)] && text[oldTop + |chunk|] == old(text)[oldTop])
    {
      if loadedStart < 0 {
        return [];
      }
      if index != loadedStart - 1 {
        return [];
      }
      var oldTop := if top.Some? then top.value else 0;
      requests := LoadAndPrependIntoTop(index, oldTop, jumpToTitle, body);
    }

    /**
     * onChapterSelected: a chapter already in the window is a jump to its
     * start; the chapter right after the window is appended, the one right
     * before it prepended, both jumping to the title; any other chapter
     * restarts the window from it.
     */
    method OnChapterSelected(index: int, top: Option<int>, body: string)
      returns (requests: seq<ViewRequest>)
      requires Valid() && 0 <= index < |titles|
      modifies this, starts, ends
      ensures Valid()
      ensures titles == old(titles) && starts == old(starts) && ends == old(ends)
      ensures old(starts[index] >= 0 && loadedStart <= index <= loadedEnd) ==>
        unchanged(this, starts, ends) && requests == [JumpTo(starts[index])]
      ensures old(!(starts[index] >= 0 && loadedStart <= index <= loadedEnd)
                  && 0 <= loadedEnd && index == loadedEnd + 1) ==>
        && AppendedChapter(index, AppendChunk(titles[index], body, |old(text)|), old(Snap()))
        && requests == [JumpTo(starts[index])]
      ensures old(!(starts[index] >= 0 && loadedStart <= index <= loadedEnd)
                  && !(0 <= loadedEnd && index == loadedEnd + 1)
                  && 0 <= loadedStart && index == loadedStart - 1) ==>
        && PrependedChapter(index, PrependChunk(titles[index], body), old(Snap()))
        && requests == [JumpTo(0)]
      ensures old(!(starts[index] >= 0 && loadedStart <= index <= loadedEnd)
                  && !(0 <= loadedEnd && index == loadedEnd + 1)
                  && !(0 <= loadedStart && index == loadedStart - 1)) ==>
        && loadedStart == index && loadedEnd == index && CountersCleared()
        && text == AppendChunk(titles[index], body, 0)
        && starts[index] == 0 && ends[index] == |text|
        && (forall i :: 0 <= i < |titles| && i != index ==> starts[i] == -1 && ends[i] == -1)
        && requests == [JumpTo(0)]
    {
      var start := starts[index];
      if start >= 0 && loadedStart <= index <= loadedEnd {
        assert InWindow(index);
        OffsetsInRange(index);
        requests := [JumpTo(CoerceIn(start, 0, |text|))];
        return;
      }
      if loadedEnd >= 0 && index == loadedEnd + 1 {
        requests := AppendChapter(index, true, false, top, body);
        return;
      }
      if loadedStart >= 0 && index == loadedStart - 1 {
        requests := PrependChapter(index, true, top, body);
        return;
      }
      requests := StartFromChapter(index, false, ReadingPos(-1, 0), body);
    }

    /**
     * currentChapterIndexFromView: with nothing loaded or no known top
     * offset, the selected list index (at least 0); otherwise the first
     * loaded chapter whose range holds `top`, or the last loaded chapter.
     */
    method CurrentChapterIndexFromView(top: Option<int>, selectedIndex: int) returns (idx: int)
      requires WellFormed()
      ensures loadedStart < 0 || top.None? ==> idx == CoerceAtLeast(selectedIndex, 0)
      ensures 0 <= loadedStart && top.Some? ==> IsCurrentChapter(idx, top.value)
    {
      if loadedStart < 0 || loadedEnd < 0 {
        return CoerceAtLeast(selectedIndex, 0);
      }
      if top.None? {
        return CoerceAtLeast(selectedIndex, 0);
      }
      var off := top.value;
      var i := loadedStart;
      while i <= loadedEnd
        invariant loadedStart <= i <= loadedEnd + 1
        invariant forall j :: loadedStart <= j < i ==> !ChapterHolds(j, off)
      {
        var s := starts[i];
        var e := ends[i];
        if s >= 0 && e > s && s <= off < e {
          return i;
        }
        i := i + 1;
      }
      return loadedEnd;
    }

    /**
     * captureAndSaveReadingPos: the position to persist, as the current
     * chapter and the top's distance from that chapter's start (at least 0);
     * None when nothing is loaded or the top offset is unknown.
     */
    method CaptureReadingPos(top: Option<int>, selectedIndex: int) returns (pos: Option<ReadingPos>)
      requires WellFormed()
      ensures pos.Some? <==> 0 <= loadedStart && top.Some?
      ensures pos.Some? ==>
        && IsCurrentChapter(pos.value.chapter, top.value)
        && pos.value.offsetInChapter == CoerceAtLeast(top.value - starts[pos.value.chapter], 0)
    {
      var idx := CurrentChapterIndexFromView(top, selectedIndex);
      if !(0 <= idx < |titles|) {
        return None;
      }
      var start := starts[idx];
      if start < 0 {
        // only when nothing is loaded: a loaded chapter has a start
        return None;
      }
      if top.None? {
        return None;
      }
      pos := Some(ReadingPos(idx, CoerceAtLeast(top.value - start, 0)));
    }

    /**
     * The gesture-counting part of onDownWheel: moves the down counter as
     * AutoLoad.WheelStep says and reports whether it asks for a load.
     */
    method CountDownWheel(atBottom: bool, now: int) returns (load: bool)
      modifies this`downCount, this`lastDownTime
      ensures var step := AutoLoad.WheelStep(AutoLoad.Counter(old(downCount), old(lastDownTime)),
                                             AutoLoad.WheelEvent(atBottom, CanAppendNext(), now));
        AutoLoad.Counter(downCount, lastDownTime) == step.counter && load == step.load
    {
      load := false;
      if !atBottom {
        downCount := 0;
        return;
      }
      if loadedEnd < 0 {
        return;
      }
      if loadedEnd + 1 >= |titles| {
        return;
      }
      if now - lastDownTime > AutoLoad.AutoWindowMs {
        downCount := 0;
      }
      lastDownTime := now;
      downCount := downCount + 1;
      if downCount >= AutoLoad.AutoWheelCount {
        downCount := 0;
        load := true;
      }
    }

    /**
     * The gesture-counting part of onUpWheel: moves the up counter as
     * AutoLoad.WheelStep says and reports whether it asks for a load.
     */
    method CountUpWheel(atTop: bool, now: int) returns (load: bool)
      modifies this`upCount, this`lastUpTime
      ensures var step := AutoLoad.WheelStep(AutoLoad.Counter(old(upCount), old(lastUpTime)),
                                             AutoLoad.WheelEvent(atTop, CanPrependPrevious(), now));
        AutoLoad.Counter(upCount, lastUpTime) == step.counter && load == step.load
    {
      load := false;
      if !atTop {
        upCount := 0;
        return;
      }
      if loadedStart < 0 {
        return;
      }
      if loadedStart - 1 < 0 {
        return;
      }
      if now - lastUpTime > AutoLoad.AutoWindowMs {
        upCount := 0;
      }
      lastUpTime := now;
      upCount := upCount + 1;
      if upCount >= AutoLoad.AutoWheelCount {
        upCount := 0;
        load := true;
      }
    }

    /**
     * onDownWheel: one downward wheel event, `atBottom` telling whether the
     * view is at the bottom of the document and `now` the time in ms. The
     * counter moves as AutoLoad.WheelStep says; when it asks for a load, the
     * next chapter is appended keeping the reading anchor `top`, and the
     * load clears every counter.
     */
    method OnDownWheel(atBottom: bool, now: int, top: Option<int>, body: string)
      returns (requests: seq<ViewRequest>)
      requires Valid()
      modifies this, starts, ends
      ensures Valid()
      ensures titles == old(titles) && starts == old(starts) && ends == old(ends)
      ensures var step := AutoLoad.WheelStep(AutoLoad.Counter(old(downCount), old(lastDownTime)),
                                             AutoLoad.WheelEvent(atBottom, old(CanAppendNext()), now));
        if step.load then
          && loadedEnd == old(loadedEnd) + 1
          && AppendedChapter(loadedEnd, AppendChunk(titles[loadedEnd], body, |old(text)|), old(Snap()))
          && var removed := |old(text)| + |AppendChunk(titles[loadedEnd], body, |old(text)|)| - |text|;
          && requests == (if top.Some? then [ScrollTopTo(AnchorAfterEviction(top.value, removed, |text|))] else [])
          // a reading anchor that was not evicted still shows the same character
          && (top.Some? && removed <= top.value < |old(text)| ==>
                requests == [ScrollTopTo(top.value - removed)] && text[top.value - removed] == old(text)[top.value])
        else
          && AutoLoad.Counter(downCount, lastDownTime) == step.counter
          && upCount == old(upCount) && lastUpTime == old(lastUpTime)
          && text == old(text) && loadedStart == old(loadedStart) && loadedEnd == old(loadedEnd)
          && starts[..] == old(starts[..]) && ends[..] == old(ends[..])
          && requests == []
    {
      var load := CountDownWheel(atBottom, now);
      requests := [];
      if load {
        var next := loadedEnd + 1;
        requests := AppendChapter(next, false, true, top, body);
      }
    }

    /**
     * onUpWheel: one upward wheel event, `atTop` telling whether the view
     * is at the top of the document. The counter moves as AutoLoad.WheelStep
     * says; when it asks for a load, the previous chapter is prepended
     * keeping the reading anchor `top`, and the load clears every counter.
     */
    method OnUpWheel(atTop: bool, now: int, top: Option<int>, body: string)
      returns (requests: seq<ViewRequest>)
      requires Valid()
      modifies this, starts, ends
      ensures Valid()
      ensures titles == old(titles) && starts == old(starts) && ends == old(ends)
      ensures var step := AutoLoad.WheelStep(AutoLoad.Counter(old(upCount), old(lastUpTime)),
                                             AutoLoad.WheelEvent(atTop, old(CanPrependPrevious()), now));
        if step.load then
          && loadedStart == old(loadedStart) - 1
          && PrependedChapter(loadedStart, PrependChunk(titles[loadedStart], body), old(Snap()))
          && var chunk := PrependChunk(titles[loadedStart], body);
             var oldTop := if top.Some? then top.value else 0;
          && requests == [ScrollTopTo(CoerceIn(oldTop + |chunk|, 0, |chunk| + |old(text)|))]
          // a reading anchor that was not evicted still shows the same character
          && (0 <= oldTop && oldTop + |chunk| < |text| ==>
                requests == [ScrollTopTo(oldTop + |chunk|)] && text[oldTop + |chunk|] == old(text)[oldTop])
        else
          && AutoLoad.Counter(upCount, lastUpTime) == step.counter
          && downCount == old(downCount) && lastDownTime == old(lastDownTime)
          && text == old(text) && loadedStart == old(loadedStart) && loadedEnd == old(loadedEnd)
          && starts[..] == old(starts[..]) && ends[..] == old(ends[..])
          && requests == []
    {
      var load := CountUpWheel(atTop, now);
      requests := [];
      if load {
        var prev := loadedStart - 1;
        requests := PrependChapter(prev, false, top, body);
      }
    }

    /**
     * publishChapters: installs a new chapter list with fresh offset tables
     * marking every chapter -1, and empties the window and the gesture
     * counters (resetAppendStateOnly). The document is left as it is.
     */
    method PublishChapters(chapterTitles: seq<string>)
      modifies this
      ensures Valid() && titles == chapterTitles && text == old(text)
      ensures fresh(starts) && fresh(ends)
      ensures loadedStart == -1 && loadedEnd == -1 && CountersCleared()
      ensures forall i :: 0 <= i < |titles| ==> starts[i] == -1 && ends[i] == -1
    {
      titles := chapterTitles;
      starts := new int[|chapterTitles|](_ => -1);
      ends := new int[|chapterTitles|](_ => -1);
      loadedStart := -1;
      loadedEnd := -1;
      ResetAutoCounters();
    }

    /**
     * resetAllState: empties the window, clears the gesture counters and
     * marks every entry of the tables -1. The document is left as it is. The
     * panel also calls it right after emptying the chapter list, while the
     * tables still have the old list's length; the state is Valid again once
     * the tables match the list.
     */
    method ResetAllState()
      requires starts != ends && starts.Length == ends.Length
      modifies this`loadedStart, this`loadedEnd, this`downCount, this`lastDownTime,
               this`upCount, this`lastUpTime, starts, ends
      ensures text == old(text) && titles == old(titles)
      ensures starts.Length == |titles| ==> Valid()
      ensures loadedStart == -1 && loadedEnd == -1 && CountersCleared()
      ensures forall i :: 0 <= i < starts.Length ==> starts[i] == -1 && ends[i] == -1
    {
      loadedStart := -1;
      loadedEnd := -1;
      ResetAutoCounters();
      ClearOffsets();
    }
  }
}
