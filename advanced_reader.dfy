/**
 * The chapter reader (advanced-reader.js): a text without stored chapters is
 * cut into chapters of whole lines, a current chapter index is moved by
 * prev/next/goto, bookmarks form a list with one entry per book and chapter,
 * and the table of contents can be filtered and previewed around a match.
 */
module AdvancedReading {
  import opened Text
  import opened Seqs

  const MinLinesPerChapter: nat := 100
  const MaxLinesPerChapter: nat := 500
  const PreviewRadius: nat := 40
  const PreviewLength: nat := 100

  datatype Chapter = Chapter(title: string, startLine: nat, endLine: int, content: string)

  // ---------------------------------------------------------------------------
  // Chapters
  // ---------------------------------------------------------------------------

  /** `Глава ${n}` */
  function ChapterTitle(n: nat): string {
    "Глава " + DecimalString(n)
  }

  /** Lines per chapter: a twentieth of the line count, kept between 100 and 500. */
  function LinesPerChapter(lineCount: nat): (r: nat)
    ensures MinLinesPerChapter <= r <= MaxLinesPerChapter
    ensures MinLinesPerChapter <= lineCount / 20 <= MaxLinesPerChapter ==> r == lineCount / 20
  {
    Min(MaxLinesPerChapter, Max(MinLinesPerChapter, lineCount / 20))
  }

  /** The chapters starting at line `i`, numbered after `count` earlier ones. */
  function ChaptersFrom(lines: seq<string>, size: nat, i: nat, count: nat): seq<Chapter>
    requires size >= 1
    decreases |lines| - i
  {
    if i >= |lines| then []
    else
      [Chapter(ChapterTitle(count + 1), i, Min(i + size - 1, |lines| - 1),
               Join(lines[i..Min(i + size, |lines|)], "\n"))]
      + ChaptersFrom(lines, size, i + size, count + 1)
  }

  /** What generateChapters returns: nothing for a missing or empty text,
      otherwise the lines cut into runs of LinesPerChapter lines. */
  function Chapters(content: Option<string>): seq<Chapter>
  {
    if content.None? || content.value == [] then []
    else
      var lines := Split(content.value, '\n');
      ChaptersFrom(lines, LinesPerChapter(|lines|), 0, 0)
  }

  /** Chapter k starts at line i + k * size, ends `size` lines later or at the
      last line, is titled with its number, and the chapters are just enough
      to reach the last line. */
  lemma {:induction false} ChaptersFromShape(lines: seq<string>, size: nat, i: nat, count: nat)
    requires size >= 1
    ensures var r := ChaptersFrom(lines, size, i, count);
      forall k :: 0 <= k < |r| ==>
        && r[k].startLine == i + k * size
        && r[k].endLine == Min(i + k * size + size - 1, |lines| - 1)
        && r[k].title == ChapterTitle(count + k + 1)
    ensures var r := ChaptersFrom(lines, size, i, count);
      (i >= |lines| ==> r == []) && (i < |lines| ==> (|r| - 1) * size < |lines| - i <= |r| * size)
    decreases |lines| - i
  {
    if i < |lines| {
      var r := ChaptersFrom(lines, size, i, count);
      var rest := ChaptersFrom(lines, size, i + size, count + 1);
      ChaptersFromShape(lines, size, i + size, count + 1);
      ChaptersFromStep(lines, size, i, count);
      assert |r| == |rest| + 1 && r[1..] == rest;
      forall k | 1 <= k < |r|
        ensures r[k].startLine == i + k * size
        ensures r[k].endLine == Min(i + k * size + size - 1, |lines| - 1)
        ensures r[k].title == ChapterTitle(count + k + 1)
      {
        assert r[k] == rest[k - 1];
        MulPred(k, size);
      }
      MulPred(|r|, size);
      MulPred(|rest|, size);
    }
  }

  /** Arithmetic step for ChaptersFromShape: k - 1 chapters and one more. */
  lemma MulPred(k: int, size: int)
    ensures (k - 1) * size + size == k * size
  {
  }

  /** The chapters are contiguous and cover every line: the first starts at line
      0, each starts right after the previous one ends, the last ends at the
      last line, and there are ceil(n / size) of them. */
  lemma ChaptersCoverLines(lines: seq<string>, size: nat)
    requires size >= 1 && |lines| >= 1
    ensures var r := ChaptersFrom(lines, size, 0, 0);
      && |r| >= 1
      && r[0].startLine == 0
      && r[|r| - 1].endLine == |lines| - 1
      && (forall k :: 0 <= k < |r| - 1 ==> r[k + 1].startLine == r[k].endLine + 1)
      && (|r| - 1) * size < |lines| <= |r| * size
  {
    var r := ChaptersFrom(lines, size, 0, 0);
    ChaptersFromShape(lines, size, 0, 0);
    forall k | 0 <= k < |r| - 1
      ensures r[k + 1].startLine == r[k].endLine + 1
    {
      MulMonotone(k + 1, |r| - 1, size);
      assert (k + 1) * size == k * size + size;
    }
    MulMonotone(|r| - 1, |r| - 1, size);
  }

  /** The text of each chapter. */
  function ChapterTexts(cs: seq<Chapter>): (r: seq<string>)
    ensures |r| == |cs|
  {
    if cs == [] then [] else [cs[0].content] + ChapterTexts(cs[1..])
  }

  lemma {:induction false} ChaptersFromRejoin(lines: seq<string>, size: nat, i: nat, count: nat)
    requires size >= 1 && i < |lines|
    ensures Join(ChapterTexts(ChaptersFrom(lines, size, i, count)), "\n") == Join(lines[i..], "\n")
    decreases |lines| - i
  {
    var r := ChaptersFrom(lines, size, i, count);
    var rest := ChaptersFrom(lines, size, i + size, count + 1);
    assert r[1..] == rest;
    if i + size >= |lines| {
      assert lines[i..Min(i + size, |lines|)] == lines[i..];
    } else {
      ChaptersFromRejoin(lines, size, i + size, count + 1);
      ChaptersFromShape(lines, size, i + size, count + 1);
      assert ChapterTexts(r) == [r[0].content] + ChapterTexts(rest);
      JoinAppend([r[0].content], ChapterTexts(rest), "\n");
      assert lines[i..] == lines[i..i + size] + lines[i + size..];
      JoinAppend(lines[i..i + size], lines[i + size..], "\n");
    }
  }

  /** Joined with line breaks, the chapter texts give back the book text. */
  lemma ChaptersRejoin(text: string)
    requires text != []
    ensures Join(ChapterTexts(Chapters(Some(text))), "\n") == text
  {
    var lines := Split(text, '\n');
    ChaptersFromRejoin(lines, LinesPerChapter(|lines|), 0, 0);
    assert lines[0..] == lines;
    JoinSplit(text, '\n');
  }

  lemma ChaptersFromStep(lines: seq<string>, size: nat, i: nat, count: nat)
    requires size >= 1 && i < |lines|
    ensures ChaptersFrom(lines, size, i, count)
         == [Chapter(ChapterTitle(count + 1), i, Min(i + size - 1, |lines| - 1),
                     Join(lines[i..Min(i + size, |lines|)], "\n"))]
            + ChaptersFrom(lines, size, i + size, count + 1)
  {
  }

  /** Moving the next chapter from the pending ones to the finished ones. */
  lemma ChaptersFromAppend(lines: seq<string>, size: nat, i: nat, count: nat,
                           done: seq<Chapter>, chapter: Chapter)
    requires size >= 1 && i < |lines|
    requires chapter == Chapter(ChapterTitle(count + 1), i, Min(i + size - 1, |lines| - 1),
                                Join(lines[i..Min(i + size, |lines|)], "\n"))
    ensures done + ChaptersFrom(lines, size, i, count)
         == (done + [chapter]) + ChaptersFrom(lines, size, i + size, count + 1)
  {
    ChaptersFromStep(lines, size, i, count);
  }

  /** generateChapters */
  method GenerateChapters(content: Option<string>) returns (chapters: seq<Chapter>)
    ensures chapters == Chapters(content)
  {
    if content.None? || content.value == [] {
      return [];
    }
    var text := content.value;
    chapters := [];
    var lines := Split(text, '\n');
    var chapterCount := 0;
    var linesPerChapter := LinesPerChapter(|lines|);
    var i := 0;
    ghost var target := ChaptersFrom(lines, linesPerChapter, 0, 0);
    while i < |lines|
      invariant chapterCount == |chapters|
      invariant chapters + ChaptersFrom(lines, linesPerChapter, i, chapterCount) == target
      decreases |lines| - i
    {
      var chapter := Chapter(ChapterTitle(chapterCount + 1), i, Min(i + linesPerChapter - 1, |lines| - 1),
                             Join(lines[i..Min(i + linesPerChapter, |lines|)], "\n"));
      ChaptersFromAppend(lines, linesPerChapter, i, chapterCount, chapters, chapter);
      assert (chapters + [chapter]) + ChaptersFrom(lines, linesPerChapter, i + linesPerChapter, chapterCount + 1)
             == target;
      chapters := chapters + [chapter];
      chapterCount := chapterCount + 1;
      i := i + linesPerChapter;
    }
    assert chapters == target by {
      assert ChaptersFrom(lines, linesPerChapter, i, chapterCount) == [];
    }
  }

  // ---------------------------------------------------------------------------
  // The saved chapter
  // ---------------------------------------------------------------------------

  /** getSavedChapter as written: the stored number, or 0 when nothing is stored. */
  function SavedChapterAsWritten(saved: Option<int>): (r: int)
    ensures saved.None? ==> r == 0
    ensures saved.Some? ==> r == saved.value
  {
    if saved.Some? then saved.value else 0
  }

  /** A chapter number saved for a longer version of the book is restored as is,
      outside the chapter list. */
  lemma StaleSavedChapter()
    ensures SavedChapterAsWritten(Some(7)) >= |ChaptersFrom(["a", "b", "c"], 100, 0, 0)|
  {
    assert |ChaptersFrom(["a", "b", "c"], 100, 0, 0)| == 1;
  }

  /** The saved chapter kept inside the chapter list, as the page reader does
      for its page. */
  function RestoredChapter(saved: Option<int>, count: nat): (r: int)
    ensures r >= 0
    ensures count >= 1 ==> r < count
    ensures saved.Some? && 0 <= saved.value < count ==> r == saved.value
    ensures saved.None? ==> r == 0
  {
    if saved.Some? then Max(Min(saved.value, count - 1), 0) else 0
  }

  // ---------------------------------------------------------------------------
  // Bookmarks
  // ---------------------------------------------------------------------------

  datatype ChapterBookmark = ChapterBookmark(
    id: string, bookId: string, bookTitle: string, chapter: int,
    chapterTitle: string, date: int, preview: string)

  predicate IsFor(b: ChapterBookmark, bookId: string, chapter: int) {
    b.chapter == chapter && b.bookId == bookId
  }

  /** findIndex of the bookmark for a book and chapter. */
  function FindBookmark(bs: seq<ChapterBookmark>, bookId: string, chapter: int): (r: int)
    ensures -1 <= r < |bs|
    ensures r == -1 <==> forall j :: 0 <= j < |bs| ==> !IsFor(bs[j], bookId, chapter)
    ensures r != -1 ==> IsFor(bs[r], bookId, chapter)
    ensures forall j :: 0 <= j < r ==> !IsFor(bs[j], bookId, chapter)
    decreases |bs|
  {
    if bs == [] then -1
    else if IsFor(bs[0], bookId, chapter) then 0
    else
      var r := FindBookmark(bs[1..], bookId, chapter);
      if r == -1 then -1 else r + 1
  }

  /** Remove the bookmark found, or append `b`. */
  function ToggleIn(bs: seq<ChapterBookmark>, bookId: string, chapter: int, b: ChapterBookmark): seq<ChapterBookmark>
  {
    var k := FindBookmark(bs, bookId, chapter);
    if k == -1 then bs + [b] else bs[..k] + bs[k + 1..]
  }

  /** No two bookmarks are for the same book and chapter. */
  predicate OnePerChapter(bs: seq<ChapterBookmark>) {
    forall a, c :: 0 <= a < c < |bs| ==> !(bs[a].bookId == bs[c].bookId && bs[a].chapter == bs[c].chapter)
  }

  /** Toggling keeps one bookmark per book and chapter, flips whether the
      current chapter has one, and keeps every other bookmark. */
  lemma ToggleInEffect(bs: seq<ChapterBookmark>, bookId: string, chapter: int, b: ChapterBookmark)
    requires OnePerChapter(bs) && IsFor(b, bookId, chapter)
    ensures OnePerChapter(ToggleIn(bs, bookId, chapter, b))
    ensures FindBookmark(ToggleIn(bs, bookId, chapter, b), bookId, chapter) == -1
        <==> FindBookmark(bs, bookId, chapter) != -1
    ensures forall x :: !IsFor(x, bookId, chapter) ==> (x in ToggleIn(bs, bookId, chapter, b) <==> x in bs)
    ensures FindBookmark(bs, bookId, chapter) == -1 ==> ToggleIn(bs, bookId, chapter, b) == bs + [b]
  {
    var k := FindBookmark(bs, bookId, chapter);
    if k != -1 {
      RemoveBookmarkEffect(bs, bookId, chapter, k);
    } else {
      AppendBookmarkEffect(bs, bookId, chapter, b);
      assert (bs + [b])[|bs|] == b;
      assert forall x :: x in bs + [b] <==> x in bs || x == b;
    }
  }

  /** Removing the one bookmark for a chapter leaves none for it and keeps the others. */
  lemma RemoveBookmarkEffect(bs: seq<ChapterBookmark>, bookId: string, chapter: int, k: nat)
    requires OnePerChapter(bs) && k < |bs| && IsFor(bs[k], bookId, chapter)
    ensures var r := bs[..k] + bs[k + 1..];
      && OnePerChapter(r)
      && (forall j :: 0 <= j < |r| ==> !IsFor(r[j], bookId, chapter))
      && (forall x :: !IsFor(x, bookId, chapter) ==> (x in r <==> x in bs))
  {
    var r := bs[..k] + bs[k + 1..];
    assert forall j :: 0 <= j < |r| ==> r[j] == if j < k then bs[j] else bs[j + 1] by {
      forall j | 0 <= j < |r|
        ensures r[j] == if j < k then bs[j] else bs[j + 1]
      {
      }
    }
    assert forall j :: 0 <= j < |r| ==> !IsFor(r[j], bookId, chapter) by {
      forall j | 0 <= j < |r|
        ensures !IsFor(r[j], bookId, chapter)
      {
        if j >= k {
          assert !(bs[k].bookId == bs[j + 1].bookId && bs[k].chapter == bs[j + 1].chapter);
        }
      }
    }
    assert forall x :: !IsFor(x, bookId, chapter) ==> (x in r <==> x in bs) by {
      forall x | !IsFor(x, bookId, chapter)
        ensures x in r <==> x in bs
      {
        if x in bs {
          var j :| 0 <= j < |bs| && bs[j] == x;
          assert j != k;
          if j < k { assert r[j] == x; } else { assert r[j - 1] == x; }
        }
      }
    }
  }

  /** Appending a bookmark for a chapter that has none keeps one per chapter. */
  lemma AppendBookmarkEffect(bs: seq<ChapterBookmark>, bookId: string, chapter: int, b: ChapterBookmark)
    requires OnePerChapter(bs) && IsFor(b, bookId, chapter)
    requires forall j :: 0 <= j < |bs| ==> !IsFor(bs[j], bookId, chapter)
    ensures OnePerChapter(bs + [b])
  {
    var r := bs + [b];
    forall a, c | 0 <= a < c < |r|
      ensures !(r[a].bookId == r[c].bookId && r[a].chapter == r[c].chapter)
    {
      if c == |bs| {
        assert r[c] == b;
        assert !IsFor(bs[a], bookId, chapter);
      }
    }
  }

  // ---------------------------------------------------------------------------
  // Table of contents search and preview
  // ---------------------------------------------------------------------------

  /** A chapter matches when its title or its text contains the query, ignoring case. */
  predicate ChapterMatches(c: Chapter, query: string) {
    Includes(Lower(c.title), Lower(query)) || Includes(Lower(c.content), Lower(query))
  }

  /** searchTOC: a blank query lists every chapter, otherwise the matching ones in order. */
  function SearchToc(chapters: seq<Chapter>, query: string): (r: seq<Chapter>)
    ensures Trim(query) == [] ==> r == chapters
    ensures Trim(query) != [] ==> forall c :: c in r ==> c in chapters && ChapterMatches(c, query)
  {
    if Trim(query) == [] then chapters
    else Filter(chapters, (c: Chapter) => ChapterMatches(c, query))
  }

  /** A non-blank search misses no matching chapter. */
  lemma SearchTocComplete(chapters: seq<Chapter>, query: string, c: Chapter)
    requires c in chapters && ChapterMatches(c, query)
    ensures c in SearchToc(chapters, query)
  {
    if Trim(query) != [] {
      FilterKeeps(chapters, (c: Chapter) => ChapterMatches(c, query), c);
    }
  }

  /** The window getSearchPreview shows around the first match: PreviewRadius
      characters on either side, cut at the ends of the text. */
  function PreviewWindow(text: string, query: string): (w: (nat, nat))
    requires IndexOf(Lower(text), Lower(query)) != -1
    ensures var idx := IndexOf(Lower(text), Lower(query));
      && w.0 <= idx && idx + |query| <= w.1 <= |text|
      && (idx >= PreviewRadius ==> w.0 == idx - PreviewRadius)
      && (idx < PreviewRadius ==> w.0 == 0)
      && (idx + |query| + PreviewRadius <= |text| ==> w.1 == idx + |query| + PreviewRadius)
      && (idx + |query| + PreviewRadius > |text| ==> w.1 == |text|)
  {
    var idx := IndexOf(Lower(text), Lower(query));
    (Max(0, idx - PreviewRadius), Min(|text|, idx + |query| + PreviewRadius))
  }

  /** `...`, when the flag is set. */
  function Ellipsis(b: bool): string {
    if b then "..." else ""
  }

  /** getSearchPreview before highlighting: the first PreviewLength characters
      and `...` without a match; otherwise the window, with `...` in front
      exactly when it does not start the text and behind exactly when it does
      not end it. */
  function SearchPreview(text: string, query: string): (r: string)
    ensures IndexOf(Lower(text), Lower(query)) == -1 ==> r == Substring(text, 0, PreviewLength) + "..."
    ensures IndexOf(Lower(text), Lower(query)) != -1 ==>
      var w := PreviewWindow(text, query);
      r == Ellipsis(w.0 > 0) + text[w.0..w.1] + Ellipsis(w.1 < |text|)
  {
    var index := IndexOf(Lower(text), Lower(query));
    if index == -1 then Substring(text, 0, PreviewLength) + "..."
    else
      var start := Max(0, index - PreviewRadius);
      var end := Min(|text|, index + |query| + PreviewRadius);
      assert (start, end) == PreviewWindow(text, query);
      var preview := Substring(text, start, end);
      assert preview == text[start..end];
      var preview := if start > 0 then "..." + preview else preview;
      if end < |text| then preview + "..." else preview
  }

  /** The window shows the match: lower-cased, it holds the query at the match's
      offset from the window start. */
  lemma PreviewShowsMatch(text: string, query: string)
    requires IndexOf(Lower(text), Lower(query)) != -1
    ensures var w := PreviewWindow(text, query);
      OccursAt(Lower(text[w.0..w.1]), Lower(query), IndexOf(Lower(text), Lower(query)) - w.0)
  {
    var idx := IndexOf(Lower(text), Lower(query));
    var w := PreviewWindow(text, query);
    WindowShowsMatch(text, Lower(query), idx, w.0, w.1);
  }

  // ---------------------------------------------------------------------------
  // The reader
  // ---------------------------------------------------------------------------

  class AdvancedReader {
    var bookId: string
    var bookTitle: string
    var chapters: seq<Chapter>
    var currentChapter: int
    /** The bookmark list kept in local storage for this book. */
    var bookmarks: seq<ChapterBookmark>

    /** The current chapter is one of the chapters. */
    predicate Valid()
      reads this`chapters, this`currentChapter
    {
      0 <= currentChapter < |chapters|
    }

    constructor(bookId: string, bookTitle: string, bookmarks: seq<ChapterBookmark>)
      ensures this.bookId == bookId && this.bookTitle == bookTitle && this.bookmarks == bookmarks
      ensures chapters == [] && currentChapter == 0
    {
      this.bookId := bookId;
      this.bookTitle := bookTitle;
      chapters := [];
      currentChapter := 0;
      this.bookmarks := bookmarks;
    }

    /** loadBook: the stored chapter list if the book has one, else generated
        chapters; then the saved chapter as getSavedChapter returns it, which
        is not clamped (RestoredChapter is the clamped reading). The current
        chapter is one of the chapters exactly when the saved one is. */
    method LoadChapters(stored: Option<seq<Chapter>>, content: Option<string>, saved: Option<int>)
      modifies this`chapters, this`currentChapter
      ensures stored.Some? ==> chapters == stored.value
      ensures stored.None? ==> chapters == Chapters(content)
      ensures currentChapter == SavedChapterAsWritten(saved)
      ensures Valid() <==> 0 <= SavedChapterAsWritten(saved) < |chapters|
      ensures Valid() ==> currentChapter == RestoredChapter(saved, |chapters|)
    {
      if stored.Some? {
        chapters := stored.value;
      } else {
        chapters := GenerateChapters(content);
      }
      currentChapter := SavedChapterAsWritten(saved);
    }

    /** prevChapter */
    method PrevChapter()
      modifies this`currentChapter
      ensures old(currentChapter) > 0 ==> currentChapter == old(currentChapter) - 1
      ensures old(currentChapter) <= 0 ==> currentChapter == old(currentChapter)
      ensures old(Valid()) ==> Valid()
    {
      if currentChapter > 0 {
        currentChapter := currentChapter - 1;
      }
    }

    /** nextChapter */
    method NextChapter()
      modifies this`currentChapter
      ensures old(currentChapter) < |chapters| - 1 ==> currentChapter == old(currentChapter) + 1
      ensures old(currentChapter) >= |chapters| - 1 ==> currentChapter == old(currentChapter)
      ensures old(Valid()) ==> Valid()
    {
      if currentChapter < |chapters| - 1 {
        currentChapter := currentChapter + 1;
      }
    }

    /** gotoChapter: move to a chapter in the list; any other index is ignored. */
    method GotoChapter(index: int)
      modifies this`currentChapter
      ensures 0 <= index < |chapters| ==> currentChapter == index
      ensures !(0 <= index < |chapters|) ==> currentChapter == old(currentChapter)
      ensures old(Valid()) ==> Valid()
    {
      if index >= 0 && index < |chapters| {
        currentChapter := index;
      }
    }

    /** The progress updateProgress shows and updateBookProgress stores. */
    function Progress(): (r: int)
      reads this
      requires Valid()
      ensures 0 <= r <= 100
      ensures currentChapter == |chapters| - 1 ==> r == 100
    {
      PercentBounds(currentChapter + 1, |chapters|);
      Percent(currentChapter + 1, |chapters|)
    }

    /** The bookmark toggleBookmark would add for the current chapter. */
    function NewBookmark(id: string, now: int): (b: ChapterBookmark)
      reads this`bookId, this`bookTitle, this`chapters, this`currentChapter
      requires Valid()
      ensures IsFor(b, bookId, currentChapter)
    {
      var chapter := chapters[currentChapter];
      ChapterBookmark(id, bookId, bookTitle, currentChapter, chapter.title, now,
                      Substring(chapter.content, 0, PreviewLength) + "...")
    }

    /** toggleBookmark: remove the current chapter's bookmark, or add one.
        Finding and removing need no chapter; adding reads the current
        chapter's title, which throws when the current chapter is not one of
        the chapters (an empty book, or a stale saved chapter). Then `ok` is
        false and the list is unchanged. */
    method ToggleBookmark(id: string, now: int) returns (ok: bool)
      modifies this`bookmarks
      ensures var k := FindBookmark(old(bookmarks), bookId, currentChapter);
        k != -1 ==> ok && bookmarks == old(bookmarks)[..k] + old(bookmarks)[k + 1..]
      ensures !ok <==> FindBookmark(old(bookmarks), bookId, currentChapter) == -1 && !Valid()
      ensures !ok ==> bookmarks == old(bookmarks)
      ensures Valid() ==> bookmarks == ToggleIn(old(bookmarks), bookId, currentChapter, NewBookmark(id, now))
      ensures old(OnePerChapter(bookmarks)) ==> OnePerChapter(bookmarks)
    {
      var bookmarkIndex := FindBookmark(bookmarks, bookId, currentChapter);
      if bookmarkIndex > -1 {
        if OnePerChapter(bookmarks) {
          RemoveBookmarkEffect(bookmarks, bookId, currentChapter, bookmarkIndex);
        }
        bookmarks := bookmarks[..bookmarkIndex] + bookmarks[bookmarkIndex + 1..];
        ok := true;
      } else if !Valid() {
        ok := false;
      } else {
        var b := NewBookmark(id, now);
        if OnePerChapter(bookmarks) {
          AppendBookmarkEffect(bookmarks, bookId, currentChapter, b);
        }
        bookmarks := bookmarks + [b];
        ok := true;
      }
    }
  }
}
