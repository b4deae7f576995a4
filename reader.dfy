/**
 * The plain reader (reader.js): the text is cut into pages of 500 words, a
 * current page index is kept inside the page list, bookmarks are a dictionary
 * keyed by book and page, and a search reports every occurrence of the query.
 */
module Reading {
  import opened Text

  const WordsPerPage: nat := 500
  const NoTextPage := "Текст книги отсутствует"
  const DisplayedHits: nat := 20
  const ContextRadius: nat := 50
  const PreviewLength: nat := 100

  // ---------------------------------------------------------------------------
  // Pagination
  // ---------------------------------------------------------------------------

  /** The word list cut into consecutive chunks of WordsPerPage words, the last
      one possibly shorter. */
  function Chunks(words: seq<string>): seq<seq<string>>
    decreases |words|
  {
    if words == [] then []
    else if |words| <= WordsPerPage then [words]
    else [words[..WordsPerPage]] + Chunks(words[WordsPerPage..])
  }

  /** Each chunk's words joined by one space. */
  function PagesOf(chunks: seq<seq<string>>): (r: seq<string>)
    ensures |r| == |chunks|
  {
    if chunks == [] then [] else [Join(chunks[0], " ")] + PagesOf(chunks[1..])
  }

  /** The chunks laid end to end. */
  function Flatten(chunks: seq<seq<string>>): seq<string>
  {
    if chunks == [] then [] else chunks[0] + Flatten(chunks[1..])
  }

  /** One page of paginateText's loop: the chunks from word `i` on are the
      WordsPerPage words at `i` (fewer at the end), then the chunks after them. */
  lemma PagesStep(words: seq<string>, i: nat)
    requires i < |words|
    ensures PagesOf(Chunks(words[i..]))
         == [Join(words[i..Min(i + WordsPerPage, |words|)], " ")]
            + PagesOf(Chunks(words[Min(i + WordsPerPage, |words|)..]))
  {
    var rest := words[i..];
    if |rest| <= WordsPerPage {
      assert words[i..Min(i + WordsPerPage, |words|)] == rest;
      assert words[Min(i + WordsPerPage, |words|)..] == [];
    } else {
      assert words[i..Min(i + WordsPerPage, |words|)] == rest[..WordsPerPage];
      assert rest[WordsPerPage..] == words[i + WordsPerPage..];
      assert Chunks(rest)[1..] == Chunks(rest[WordsPerPage..]);
    }
  }

  /** What paginateText leaves in `pages`: one placeholder page when there is
      no text, otherwise one page per chunk of the white-space separated words. */
  function Paginate(content: Option<string>): seq<string>
  {
    if content.None? || content.value == [] then [NoTextPage]
    else PagesOf(Chunks(SplitWs(content.value)))
  }

  /** Laid end to end, the chunks give back the word list. */
  lemma {:induction false} ChunksFlatten(words: seq<string>)
    ensures Flatten(Chunks(words)) == words
    decreases |words|
  {
    if |words| > WordsPerPage {
      var c := Chunks(words);
      ChunksFlatten(words[WordsPerPage..]);
      assert c[1..] == Chunks(words[WordsPerPage..]);
      assert words == words[..WordsPerPage] + words[WordsPerPage..];
    } else if words != [] {
      assert Chunks(words)[1..] == [];
    }
  }

  /** Every chunk holds between 1 and WordsPerPage words, every chunk but the
      last exactly WordsPerPage, and there are ceil(n / WordsPerPage) of them. */
  lemma {:induction false} ChunksShape(words: seq<string>)
    ensures |Chunks(words)| == (|words| + WordsPerPage - 1) / WordsPerPage
    ensures forall k :: 0 <= k < |Chunks(words)| ==> 1 <= |Chunks(words)[k]| <= WordsPerPage
    ensures forall k :: 0 <= k < |Chunks(words)| - 1 ==> |Chunks(words)[k]| == WordsPerPage
    decreases |words|
  {
    if |words| > WordsPerPage {
      var rest := words[WordsPerPage..];
      ChunksShape(rest);
      var c := Chunks(words);
      assert c == [words[..WordsPerPage]] + Chunks(rest);
      forall k | 1 <= k < |c|
        ensures c[k] == Chunks(rest)[k - 1]
      {
      }
    }
  }

  /** Pagination always yields at least one page; a missing or empty text yields
      exactly the placeholder page. */
  lemma PaginateNeverEmpty(content: Option<string>)
    ensures |Paginate(content)| >= 1
    ensures content.None? || content == Some([]) ==> Paginate(content) == [NoTextPage]
  {
    if content.Some? && content.value != [] {
      var words := SplitWs(content.value);
      ChunksShape(words);
    }
  }

  // ---------------------------------------------------------------------------
  // Page position and progress
  // ---------------------------------------------------------------------------

  /** The page loadProgress restores from a stored page number: the number
      pulled down to the last page, then up to the first. */
  function RestoredPage(saved: int, count: nat): (r: int)
    ensures r >= 0
    ensures count >= 1 ==> r < count
    ensures 0 <= saved < count ==> r == saved
    ensures saved < 0 || count == 0 ==> r == 0
    ensures 1 <= count <= saved ==> r == count - 1
  {
    Max(Min(saved, count - 1), 0)
  }

  /** Math.round((page + 1) / count * 100), the reading progress in percent. */
  function PageProgress(page: int, count: int): int
    requires count > 0
  {
    Percent(page + 1, count)
  }

  /** The progress of a valid page is between 0 and 100 percent, the last page
      is exactly 100, and in a book of at most 200 pages it is never 0. */
  lemma PageProgressBounds(page: int, count: int)
    requires 0 <= page < count
    ensures 0 <= PageProgress(page, count) <= 100
    ensures page == count - 1 ==> PageProgress(page, count) == 100
    ensures count <= 200 ==> PageProgress(page, count) >= 1
  {
    PercentBounds(page + 1, count);
    var r := PageProgress(page, count);
    if count <= 200 {
      MulMonotone(2 * (page + 1) * 100 + count, 2 * (r + 1) * count, 1);
      MulMonotone(r + 1, 1, 2 * count);
    }
  }

  /** The first page of a 300-page book shows 0 percent. */
  lemma FirstPageOfLongBook()
    ensures PageProgress(0, 300) == 0
  {
  }

  // ---------------------------------------------------------------------------
  // Bookmarks
  // ---------------------------------------------------------------------------

  datatype Bookmark = Bookmark(bookId: string, bookTitle: string, page: nat, date: int, preview: string)

  /** The dictionary key `${bookId}_${page}`. */
  function BookmarkKey(bookId: string, page: nat): (r: string)
    ensures LastIndex(r, '_') == Some(|bookId|)
  {
    var digits := DecimalString(page);
    var r := bookId + "_" + digits;
    assert r[|bookId| + 1..] == digits;
    assert forall j :: |bookId| + 1 <= j < |r| ==> r[j] == digits[j - |bookId| - 1];
    assert '_' !in r[|bookId| + 1..];
    r
  }

  /** Different books or pages never share a bookmark key: the key's last `_`
      separates the book id from the page number. */
  lemma BookmarkKeyInjective(a: string, p: nat, b: string, q: nat)
    requires BookmarkKey(a, p) == BookmarkKey(b, q)
    ensures a == b && p == q
  {
    var k := BookmarkKey(a, p);
    assert |a| == |b|;
    assert a == k[..|a|];
    assert b == k[..|b|];
    assert DecimalString(p) == k[|a| + 1..] == DecimalString(q);
    ParseDecimal(p);
    ParseDecimal(q);
  }

  /** Toggling a key in the dictionary: remove it when present, otherwise store `b`. */
  function Toggle(m: map<string, Bookmark>, key: string, b: Bookmark): (r: map<string, Bookmark>)
    ensures key in r <==> key !in m
    ensures key !in m ==> r[key] == b
    ensures forall k :: k != key ==> (k in r <==> k in m) && (k in r ==> r[k] == m[k])
  {
    if key in m then m - {key} else m[key := b]
  }

  /** Toggling an absent key twice leaves the dictionary as it was; toggling a
      present key twice keeps it present with the newer bookmark. */
  lemma ToggleTwice(m: map<string, Bookmark>, key: string, b1: Bookmark, b2: Bookmark)
    ensures key !in m ==> Toggle(Toggle(m, key, b1), key, b2) == m
    ensures key in m ==> Toggle(Toggle(m, key, b1), key, b2) == m[key := b2]
  {
  }

  // ---------------------------------------------------------------------------
  // Search
  // ---------------------------------------------------------------------------

  datatype SearchHit = SearchHit(page: nat, position: nat, context: string, fullText: string)

  /** Every position at or after `from` where `q` occurs in `s`, in increasing
      order: indexOf from `from`, then again from one past each hit. */
  function MatchesFrom(s: string, q: string, from: nat): seq<nat>
    requires q != []
    decreases |s| + 1 - from
  {
    var p := IndexFrom(s, q, from);
    if p == -1 then [] else [p as nat] + MatchesFrom(s, q, p + 1)
  }

  /** The hits from position `p` on, where `p` is the result of an indexOf. */
  function MatchesAt(s: string, q: string, p: int): seq<nat>
    requires q != []
    requires p == -1 || OccursAt(s, q, p)
  {
    if p == -1 then [] else [p as nat] + MatchesFrom(s, q, p + 1)
  }

  /** The text around an occurrence at `pos`: up to ContextRadius characters on
      either side. */
  function MakeHit(pageIndex: nat, page: string, qlen: nat, pos: nat): SearchHit
  {
    var start := Max(0, pos - ContextRadius);
    var end := Min(|page|, pos + qlen + ContextRadius);
    SearchHit(pageIndex, pos, Substring(page, start, end), page)
  }

  function HitsAt(pageIndex: nat, page: string, qlen: nat, ms: seq<nat>): (r: seq<SearchHit>)
    ensures |r| == |ms|
  {
    if ms == [] then [] else [MakeHit(pageIndex, page, qlen, ms[0])] + HitsAt(pageIndex, page, qlen, ms[1..])
  }

  /** The hits of the pages from `i` on, page by page. */
  function SearchFrom(pages: seq<string>, q: string, i: nat): seq<SearchHit>
    requires q != []
    decreases |pages| - i
  {
    if i >= |pages| then []
    else HitsAt(i, pages[i], |q|, MatchesFrom(Lower(pages[i]), q, 0)) + SearchFrom(pages, q, i + 1)
  }

  /** The query performSearch looks for: the input trimmed, then lower-cased. */
  function Query(input: string): string
  {
    Lower(Trim(input))
  }

  /** MatchesFrom lists exactly the occurrences at or after `from`. */
  lemma {:induction false} MatchesFromExact(s: string, q: string, from: nat, k: int)
    requires q != [] && from <= |s|
    ensures k in MatchesFrom(s, q, from) <==> from <= k && OccursAt(s, q, k)
    decreases |s| + 1 - from
  {
    var p := IndexFrom(s, q, from);
    if p != -1 {
      MatchesFromExact(s, q, p + 1, k);
    }
  }

  /** MatchesFrom lists positions in strictly increasing order, all at or after `from`. */
  lemma {:induction false} MatchesFromIncreasing(s: string, q: string, from: nat)
    requires q != [] && from <= |s|
    ensures forall a, b :: 0 <= a < b < |MatchesFrom(s, q, from)| ==> MatchesFrom(s, q, from)[a] < MatchesFrom(s, q, from)[b]
    ensures forall a :: 0 <= a < |MatchesFrom(s, q, from)| ==> from <= MatchesFrom(s, q, from)[a]
    decreases |s| + 1 - from
  {
    var p := IndexFrom(s, q, from);
    if p != -1 {
      var rest := MatchesFrom(s, q, p + 1);
      MatchesFromIncreasing(s, q, p + 1);
      assert MatchesFrom(s, q, from) == [p as nat] + rest;
    }
  }

  /** Some hit in `hits` names page `p` and position `k`. */
  predicate Reported(hits: seq<SearchHit>, p: int, k: int) {
    exists j :: 0 <= j < |hits| && hits[j].page == p && hits[j].position == k
  }

  lemma ReportedAppend(a: seq<SearchHit>, b: seq<SearchHit>, p: int, k: int)
    ensures Reported(a + b, p, k) <==> Reported(a, p, k) || Reported(b, p, k)
  {
    if Reported(a + b, p, k) {
      var j :| 0 <= j < |a + b| && (a + b)[j].page == p && (a + b)[j].position == k;
      if j >= |a| {
        assert b[j - |a|] == (a + b)[j];
      }
    }
    if Reported(b, p, k) {
      var j :| 0 <= j < |b| && b[j].page == p && b[j].position == k;
      assert (a + b)[|a| + j] == b[j];
    }
    if Reported(a, p, k) {
      var j :| 0 <= j < |a| && a[j].page == p && a[j].position == k;
      assert (a + b)[j] == a[j];
    }
  }

  /** The hits of one page report that page at exactly the listed positions. */
  lemma {:induction false} ReportedHitsAt(i: nat, page: string, qlen: nat, ms: seq<nat>, p: int, k: int)
    ensures Reported(HitsAt(i, page, qlen, ms), p, k) <==> p == i && k in ms
  {
    if ms != [] {
      var h := MakeHit(i, page, qlen, ms[0]);
      ReportedHitsAt(i, page, qlen, ms[1..], p, k);
      ReportedAppend([h], HitsAt(i, page, qlen, ms[1..]), p, k);
      assert [h][0].page == i && [h][0].position == ms[0];
      assert Reported([h], p, k) ==> p == i && k == ms[0];
      assert k in ms <==> k == ms[0] || k in ms[1..];
    }
  }

  /** The hits of the pages from `i` on name a page at or after `i` and a
      position where the query occurs in that page, lower-cased; and every such
      occurrence is among them. */
  lemma {:induction false} SearchFromExact(pages: seq<string>, q: string, i: nat, p: int, k: int)
    requires q != []
    ensures Reported(SearchFrom(pages, q, i), p, k) <==> i <= p < |pages| && OccursAt(Lower(pages[p]), q, k)
    decreases |pages| - i
  {
    if i < |pages| {
      var ms := MatchesFrom(Lower(pages[i]), q, 0);
      var here := HitsAt(i, pages[i], |q|, ms);
      var later := SearchFrom(pages, q, i + 1);
      assert SearchFrom(pages, q, i) == here + later;
      assert Reported(here + later, p, k) <==> Reported(here, p, k) || Reported(later, p, k) by {
        ReportedAppend(here, later, p, k);
      }
      assert Reported(here, p, k) <==> p == i && OccursAt(Lower(pages[i]), q, k) by {
        ReportedHitsAt(i, pages[i], |q|, ms, p, k);
        MatchesFromExact(Lower(pages[i]), q, 0, k);
      }
      assert Reported(later, p, k) <==> i + 1 <= p < |pages| && OccursAt(Lower(pages[p]), q, k) by {
        SearchFromExact(pages, q, i + 1, p, k);
      }
    }
  }

  /** Every hit names a page in [lo, hi). */
  predicate PagesWithin(hits: seq<SearchHit>, lo: int, hi: int) {
    forall a :: 0 <= a < |hits| ==> lo <= hits[a].page < hi
  }

  /** Hits in page order, and within a page in position order. */
  predicate InOrder(hits: seq<SearchHit>) {
    forall a, b :: 0 <= a < b < |hits| ==>
      hits[a].page < hits[b].page || (hits[a].page == hits[b].page && hits[a].position < hits[b].position)
  }

  lemma InOrderAppend(x: seq<SearchHit>, y: seq<SearchHit>, i: int, hi: int)
    requires InOrder(x) && InOrder(y) && i + 1 <= hi
    requires PagesWithin(x, i, i + 1) && PagesWithin(y, i + 1, hi)
    ensures InOrder(x + y) && PagesWithin(x + y, i, hi)
  {
    var xy := x + y;
    forall a | 0 <= a < |xy|
      ensures i <= xy[a].page < hi
    {
      if a >= |x| {
        assert xy[a] == y[a - |x|];
      } else {
        assert xy[a] == x[a];
      }
    }
    forall a, b | 0 <= a < b < |xy|
      ensures xy[a].page < xy[b].page || (xy[a].page == xy[b].page && xy[a].position < xy[b].position)
    {
      if b < |x| {
        assert xy[a] == x[a] && xy[b] == x[b];
      } else if a < |x| {
        assert xy[a] == x[a] && xy[b] == y[b - |x|];
      } else {
        assert xy[a] == y[a - |x|] && xy[b] == y[b - |x|];
      }
    }
  }

  lemma {:induction false} HitsAtInOrder(i: nat, page: string, qlen: nat, ms: seq<nat>)
    requires forall a, b :: 0 <= a < b < |ms| ==> ms[a] < ms[b]
    ensures InOrder(HitsAt(i, page, qlen, ms)) && PagesWithin(HitsAt(i, page, qlen, ms), i, i + 1)
  {
    if ms != [] {
      var t := HitsAt(i, page, qlen, ms[1..]);
      HitsAtInOrder(i, page, qlen, ms[1..]);
      var h := MakeHit(i, page, qlen, ms[0]);
      var r := [h] + t;
      HitsAtPositions(i, page, qlen, ms[1..]);
      forall a, b | 0 <= a < b < |r|
        ensures r[a].page < r[b].page || (r[a].page == r[b].page && r[a].position < r[b].position)
      {
        if a == 0 {
          assert r[b] == t[b - 1];
          assert t[b - 1].position == ms[1..][b - 1] == ms[b];
        } else {
          assert r[a] == t[a - 1] && r[b] == t[b - 1];
        }
      }
      forall a | 0 <= a < |r|
        ensures i <= r[a].page < i + 1
      {
        if a > 0 {
          assert r[a] == t[a - 1];
        }
      }
    }
  }

  lemma {:induction false} HitsAtPositions(i: nat, page: string, qlen: nat, ms: seq<nat>)
    ensures forall j :: 0 <= j < |ms| ==> HitsAt(i, page, qlen, ms)[j].position == ms[j]
  {
    if ms != [] {
      HitsAtPositions(i, page, qlen, ms[1..]);
    }
  }

  /** The hits come in page order, and within a page in position order. */
  lemma {:induction false} SearchFromOrdered(pages: seq<string>, q: string, i: nat)
    requires q != []
    ensures PagesWithin(SearchFrom(pages, q, i), i, |pages|)
    ensures InOrder(SearchFrom(pages, q, i))
    decreases |pages| - i
  {
    if i < |pages| {
      var ms := MatchesFrom(Lower(pages[i]), q, 0);
      SearchFromOrdered(pages, q, i + 1);
      MatchesFromIncreasing(Lower(pages[i]), q, 0);
      HitsAtInOrder(i, pages[i], |q|, ms);
      InOrderAppend(HitsAt(i, pages[i], |q|, ms), SearchFrom(pages, q, i + 1), i, |pages|);
    }
  }

  /** One step of the search loop: the hits from an occurrence at `p` are the hit
      at `p` followed by the hits from one past it. */
  lemma HitStep(i: nat, page: string, s: string, q: string, p: int)
    requires q != [] && OccursAt(s, q, p)
    ensures HitsAt(i, page, |q|, MatchesAt(s, q, p))
         == [MakeHit(i, page, |q|, p)] + HitsAt(i, page, |q|, MatchesFrom(s, q, p + 1))
  {
    var ms := MatchesAt(s, q, p);
    assert ms[1..] == MatchesFrom(s, q, p + 1);
  }

  /** The hits from the result of an indexOf at `from` are those MatchesFrom lists. */
  lemma MatchesAtIndex(s: string, q: string, from: nat)
    requires q != []
    ensures MatchesAt(s, q, IndexFrom(s, q, from)) == MatchesFrom(s, q, from)
  {
  }

  /** One round of searchPage's loop: the hit at `p` moves from the pending
      hits to the collected ones, and the next indexOf starts one past `p`. */
  lemma SearchPageStep(i: nat, page: string, s: string, q: string, p: int, hits: seq<SearchHit>)
    requires q != [] && OccursAt(s, q, p)
    ensures hits + HitsAt(i, page, |q|, MatchesAt(s, q, p))
         == (hits + [MakeHit(i, page, |q|, p)]) + HitsAt(i, page, |q|, MatchesAt(s, q, IndexFrom(s, q, p + 1)))
  {
    var h := MakeHit(i, page, |q|, p);
    var later := HitsAt(i, page, |q|, MatchesFrom(s, q, p + 1));
    assert HitsAt(i, page, |q|, MatchesAt(s, q, p)) == [h] + later by {
      HitStep(i, page, s, q, p);
    }
    assert HitsAt(i, page, |q|, MatchesAt(s, q, IndexFrom(s, q, p + 1))) == later by {
      MatchesAtIndex(s, q, p + 1);
    }
    assert hits + ([h] + later) == (hits + [h]) + later;
  }

  /** One round of performSearch's loop: the hits from page `i` on are page
      `i`'s hits, then those of the later pages. */
  lemma SearchFromStep(pages: seq<string>, q: string, i: nat, found: seq<SearchHit>)
    requires q != [] && i < |pages|
    ensures found + SearchFrom(pages, q, i)
         == (found + HitsAt(i, pages[i], |q|, MatchesFrom(Lower(pages[i]), q, 0))) + SearchFrom(pages, q, i + 1)
  {
  }

  /** The context of a hit shows the occurrence, and it is at most the query
      plus 2 * ContextRadius characters long. */
  lemma ContextShowsMatch(pageIndex: nat, page: string, q: string, pos: nat)
    requires OccursAt(Lower(page), q, pos)
    ensures |MakeHit(pageIndex, page, |q|, pos).context| <= |q| + 2 * ContextRadius
    ensures OccursAt(Lower(MakeHit(pageIndex, page, |q|, pos).context), q, pos - Max(0, pos - ContextRadius))
  {
    var start := Max(0, pos - ContextRadius);
    var end := Min(|page|, pos + |q| + ContextRadius);
    assert MakeHit(pageIndex, page, |q|, pos).context == page[start..end];
    WindowShowsMatch(page, q, pos, start, end);
  }

  /** displaySearchResults shows the first DisplayedHits hits. */
  function Displayed(hits: seq<SearchHit>): (r: seq<SearchHit>)
    ensures |r| <= DisplayedHits && |r| <= |hits|
    ensures r == hits[..|r|]
    ensures |hits| <= DisplayedHits ==> r == hits
    ensures |hits| > DisplayedHits ==> |r| == DisplayedHits
  {
    hits[..Min(DisplayedHits, |hits|)]
  }

  // ---------------------------------------------------------------------------
  // The reader
  // ---------------------------------------------------------------------------

  class Reader {
    var bookId: string
    var bookTitle: string
    var pages: seq<string>
    var currentPage: int
    /** The bookmark dictionary kept in local storage. */
    var bookmarks: map<string, Bookmark>

    /** The current page is one of the pages. */
    predicate Valid()
      reads this
    {
      0 <= currentPage < |pages|
    }

    constructor(bookId: string, bookTitle: string, bookmarks: map<string, Bookmark>)
      ensures this.bookId == bookId && this.bookTitle == bookTitle
      ensures pages == [] && currentPage == 0 && this.bookmarks == bookmarks
    {
      this.bookId := bookId;
      this.bookTitle := bookTitle;
      pages := [];
      currentPage := 0;
      this.bookmarks := bookmarks;
    }

    /** paginateText: the words of the text, WordsPerPage to a page. */
    method PaginateText(content: Option<string>)
      modifies this`pages
      ensures pages == Paginate(content)
    {
      if content.None? || content.value == [] {
        pages := [NoTextPage];
        return;
      }
      var text := content.value;
      var words := SplitWs(text);
      ghost var target := PagesOf(Chunks(words));
      var ps: seq<string> := [];
      var i := 0;
      assert words[0..] == words;
      while i < |words|
        invariant ps + PagesOf(Chunks(words[Min(i, |words|)..])) == target
        decreases |words| - i
      {
        var pageWords := words[i..Min(i + WordsPerPage, |words|)];
        PagesStep(words, i);
        assert ps + [Join(pageWords, " ")] + PagesOf(Chunks(words[Min(i + WordsPerPage, |words|)..]))
            == ps + ([Join(pageWords, " ")] + PagesOf(Chunks(words[Min(i + WordsPerPage, |words|)..])));
        ps := ps + [Join(pageWords, " ")];
        i := i + WordsPerPage;
      }
      assert words[Min(i, |words|)..] == [];
      if |ps| == 0 {
        ps := [text];
      }
      pages := ps;
    }

    /** loadProgress: restore a stored page number, kept inside the page list. */
    method LoadProgress(saved: Option<int>)
      modifies this`currentPage
      ensures saved.None? ==> currentPage == old(currentPage)
      ensures saved.Some? ==> currentPage == RestoredPage(saved.value, |pages|)
      ensures saved.Some? && |pages| >= 1 ==> Valid()
    {
      if saved.Some? {
        currentPage := saved.value;
        currentPage := Min(currentPage, |pages| - 1);
        currentPage := Max(currentPage, 0);
      }
    }

    /** prevPage: step back one page unless on the first. */
    method PrevPage()
      modifies this`currentPage
      ensures old(currentPage) > 0 ==> currentPage == old(currentPage) - 1
      ensures old(currentPage) <= 0 ==> currentPage == old(currentPage)
      ensures old(Valid()) ==> Valid()
    {
      if currentPage > 0 {
        currentPage := currentPage - 1;
      }
    }

    /** nextPage: step forward one page unless on the last. */
    method NextPage()
      modifies this`currentPage
      ensures old(currentPage) < |pages| - 1 ==> currentPage == old(currentPage) + 1
      ensures old(currentPage) >= |pages| - 1 ==> currentPage == old(currentPage)
      ensures old(Valid()) ==> Valid()
    {
      if currentPage < |pages| - 1 {
        currentPage := currentPage + 1;
      }
    }

    /** The progress renderPage shows and updateBookProgress stores. */
    function Progress(): (r: int)
      reads this
      requires Valid()
      ensures 0 <= r <= 100
      ensures currentPage == |pages| - 1 ==> r == 100
    {
      PageProgressBounds(currentPage, |pages|);
      PageProgress(currentPage, |pages|)
    }

    /** The bookmark toggleBookmark would store for the current page. */
    function CurrentBookmark(now: int): Bookmark
      reads this
      requires Valid()
    {
      Bookmark(bookId, bookTitle, currentPage, now,
               Substring(pages[currentPage], 0, PreviewLength) + "...")
    }

    /** toggleBookmark: remove the current page's bookmark, or add one. */
    method ToggleBookmark(now: int)
      requires Valid()
      modifies this`bookmarks
      ensures bookmarks == Toggle(old(bookmarks), BookmarkKey(bookId, currentPage), CurrentBookmark(now))
    {
      var key := BookmarkKey(bookId, currentPage);
      if key in bookmarks {
        bookmarks := bookmarks - {key};
      } else {
        bookmarks := bookmarks[key := CurrentBookmark(now)];
      }
    }

    /** performSearch: every occurrence of the query in every page, or nothing
        when the query is blank. */
    method PerformSearch(input: string) returns (hits: Option<seq<SearchHit>>)
      ensures Query(input) == [] ==> hits.None?
      ensures Query(input) != [] ==> hits == Some(SearchFrom(pages, Query(input), 0))
    {
      var query := Query(input);
      if query == [] {
        return None;
      }
      var all := pages;
      ghost var target := SearchFrom(all, query, 0);
      var found: seq<SearchHit> := [];
      var pageIndex := 0;
      while pageIndex < |all|
        invariant pageIndex <= |all|
        invariant found + SearchFrom(all, query, pageIndex) == target
        decreases |all| - pageIndex
      {
        var pageHits := SearchPage(pageIndex, all[pageIndex], query);
        SearchFromStep(all, query, pageIndex, found);
        found := found + pageHits;
        pageIndex := pageIndex + 1;
      }
      assert found + SearchFrom(all, query, pageIndex) == found;
      return Some(found);
    }
  }

  /** The per-page step of performSearch: indexOf from the start, then from one
      past each occurrence, collecting a hit with its context each time. */
  method SearchPage(pageIndex: nat, page: string, query: string) returns (hits: seq<SearchHit>)
    requires query != []
    ensures hits == HitsAt(pageIndex, page, |query|, MatchesFrom(Lower(page), query, 0))
  {
    var pageLower := Lower(page);
    ghost var target := HitsAt(pageIndex, page, |query|, MatchesFrom(pageLower, query, 0));
    var position := IndexOf(pageLower, query);
    MatchesAtIndex(pageLower, query, 0);
    hits := [];
    while position != -1
      invariant position == -1 || OccursAt(pageLower, query, position)
      invariant hits + HitsAt(pageIndex, page, |query|, MatchesAt(pageLower, query, position)) == target
      decreases if position == -1 then 0 else |pageLower| + 1 - position
    {
      var hit := MakeHit(pageIndex, page, |query|, position);
      var next := IndexFrom(pageLower, query, position + 1);
      SearchPageStep(pageIndex, page, pageLower, query, position, hits);
      hits := hits + [hit];
      position := next;
    }
  }

}
