/**
 * The library page (library.js): the book store and what is computed from the
 * list of books — the sort orders, the search filter, the statistics panel and
 * the backup export. A book is a record as in the share format; the IndexedDB
 * object store keyed by `id` is a map from the id value to the record.
 */
module Library {
  import opened Text
  import opened Seqs
  import opened Records

  // ---------------------------------------------------------------------------
  // saveBook, updateProgress
  // ---------------------------------------------------------------------------

  /** The book as saveBook stores it: a book without a truthy id gets the fresh
      id and the current time as addedAt, any other book is kept as it is. */
  function WithId(book: Record, freshId: string, now: int): (r: Record)
    requires freshId != []
    ensures HasTruthy(r, "id")
    ensures HasTruthy(book, "id") ==> r == book
    ensures !HasTruthy(book, "id") ==>
      && "id" in r && r["id"] == Str(freshId) && "addedAt" in r && r["addedAt"] == Date(now)
      && r.Keys == book.Keys + {"id", "addedAt"}
      && (forall k :: k in book && k != "id" && k != "addedAt" ==> r[k] == book[k])
  {
    if HasTruthy(book, "id") then book
    else book["id" := Str(freshId)]["addedAt" := Date(now)]
  }

  /** Saving a saved book again changes nothing: the id given the first time
      is kept, whatever fresh id and time come later. */
  lemma WithIdStable(book: Record, id1: string, t1: int, id2: string, t2: int)
    requires id1 != [] && id2 != []
    ensures WithId(WithId(book, id1, t1), id2, t2) == WithId(book, id1, t1)
  {
  }

  /** Math.min(Math.max(progress, 0), 100) */
  function ClampProgress(progress: int): (r: int)
    ensures 0 <= r <= 100
    ensures 0 <= progress <= 100 ==> r == progress
    ensures progress < 0 ==> r == 0
    ensures progress > 100 ==> r == 100
  {
    Min(Max(progress, 0), 100)
  }

  /** The book as updateProgress changes it before saving it. */
  function WithProgress(book: Record, progress: int, now: int): (r: Record)
    ensures "progress" in r && r["progress"] == Num(ClampProgress(progress))
    ensures "lastRead" in r && r["lastRead"] == Date(now)
    ensures forall k :: k in book && k != "progress" && k != "lastRead" ==> k in r && r[k] == book[k]
  {
    book["progress" := Num(ClampProgress(progress))]["lastRead" := Date(now)]
  }

  /** What updateProgress stores is a progress between 0 and 100, whatever
      it was given. */
  lemma StoredProgressInRange(book: Record, progress: int, freshId: string, now: int)
    requires freshId != []
    ensures var s := WithId(WithProgress(book, progress, now), freshId, now);
      && s["progress"] == Num(ClampProgress(progress))
      && 0 <= ClampProgress(progress) <= 100
  {
  }

  class LibraryManager {
    /** The `books` object store, by id. */
    var store: map<Value, Record>

    constructor()
      ensures store == map[]
    {
      store := map[];
    }

    /** saveBook: assigns an id when the book has none, then puts it in the
        store under its id, replacing what was there. */
    method SaveBook(book: Record, freshId: string, now: int) returns (saved: Record)
      requires freshId != []
      modifies this`store
      ensures saved == WithId(book, freshId, now)
      ensures store == old(store)[saved["id"] := saved]
    {
      saved := book;
      if !HasTruthy(saved, "id") {
        saved := saved["id" := Str(freshId)];
        saved := saved["addedAt" := Date(now)];
      }
      store := store[saved["id"] := saved];
    }

    /** updateProgress: a stored book gets the clamped progress and the current
        time as lastRead and is saved again; an unknown id changes nothing. */
    method UpdateProgress(bookId: Value, progress: int, freshId: string, now: int)
      requires freshId != []
      modifies this`store
      ensures bookId !in old(store) ==> store == old(store)
      ensures bookId in old(store) ==>
        var s := WithId(WithProgress(old(store)[bookId], progress, now), freshId, now);
        store == old(store)[s["id"] := s]
    {
      if bookId in store {
        var book := store[bookId];
        book := book["progress" := Num(ClampProgress(progress))];
        book := book["lastRead" := Date(now)];
        var _ := SaveBook(book, freshId, now);
      }
    }
  }

  // ---------------------------------------------------------------------------
  // sortBooks
  // ---------------------------------------------------------------------------

  datatype SortMode = DateDesc | DateAsc | TitleAsc | TitleDesc | ProgressDesc | Unordered

  /** The value of the sort selector, 'date-desc' when there is no selector; an
      unknown value sorts nothing (its comparator returns 0). */
  function ModeOf(select: Option<string>): (m: SortMode)
    ensures select.None? ==> m == DateDesc
  {
    if select.None? then DateDesc
    else if select.value == "date-desc" then DateDesc
    else if select.value == "date-asc" then DateAsc
    else if select.value == "title-asc" then TitleAsc
    else if select.value == "title-desc" then TitleDesc
    else if select.value == "progress-desc" then ProgressDesc
    else Unordered
  }

  /** new Date(book.addedAt || 0) as milliseconds. */
  function DateKey(book: Record): int {
    match Field(book, "addedAt")
    case Some(Date(ms)) => ms
    case Some(Num(n)) => n
    case _ => 0
  }

  /** book.title || '' */
  function TitleKey(book: Record): string {
    match Field(book, "title")
    case Some(Str(s)) => s
    case _ => ""
  }

  /** book.progress || 0 */
  function ProgressKey(book: Record): int {
    match Field(book, "progress")
    case Some(Num(n)) => n
    case _ => 0
  }

  /** Three-way comparison of two strings by code points: negative, zero or
      positive as `a` sorts before, with or after `b`. */
  function LexCompare(a: string, b: string): (r: int)
    ensures -1 <= r <= 1
  {
    if a == [] && b == [] then 0
    else if a == [] then -1
    else if b == [] then 1
    else if a[0] < b[0] then -1
    else if a[0] > b[0] then 1
    else LexCompare(a[1..], b[1..])
  }

  /** Comparing the other way round flips the sign. */
  lemma {:induction false} LexCompareFlip(a: string, b: string)
    ensures LexCompare(b, a) == -LexCompare(a, b)
  {
    if a != [] && b != [] && a[0] == b[0] {
      LexCompareFlip(a[1..], b[1..]);
    }
  }

  /** Only equal strings compare as equal. */
  lemma {:induction false} LexCompareZero(a: string, b: string)
    ensures LexCompare(a, b) == 0 <==> a == b
  {
    if a != [] && b != [] && a[0] == b[0] {
      LexCompareZero(a[1..], b[1..]);
      if a[1..] == b[1..] {
        assert a == [a[0]] + a[1..] && b == [b[0]] + b[1..];
      }
    }
  }

  lemma {:induction false} LexCompareTrans(a: string, b: string, c: string)
    requires LexCompare(a, b) <= 0 && LexCompare(b, c) <= 0
    ensures LexCompare(a, c) <= 0
  {
    if a != [] && b != [] && c != [] && a[0] == b[0] && b[0] == c[0] {
      LexCompareTrans(a[1..], b[1..], c[1..]);
    }
  }

  /** The comparator handed to Array.prototype.sort for each mode. */
  function Compare(mode: SortMode, a: Record, b: Record): int {
    match mode
    case DateDesc => DateKey(b) - DateKey(a)
    case DateAsc => DateKey(a) - DateKey(b)
    case TitleAsc => LexCompare(TitleKey(a), TitleKey(b))
    case TitleDesc => LexCompare(TitleKey(b), TitleKey(a))
    case ProgressDesc => ProgressKey(b) - ProgressKey(a)
    case Unordered => 0
  }

  /** `a` may stay before `b`. */
  predicate Le(mode: SortMode, a: Record, b: Record) {
    Compare(mode, a, b) <= 0
  }

  /** Every comparator orders any two books one way or the other... */
  lemma LeTotal(mode: SortMode, a: Record, b: Record)
    ensures Le(mode, a, b) || Le(mode, b, a)
  {
    if mode.TitleAsc? {
      LexCompareFlip(TitleKey(a), TitleKey(b));
    } else if mode.TitleDesc? {
      LexCompareFlip(TitleKey(b), TitleKey(a));
    }
  }

  /** ...and consistently. */
  lemma LeTrans(mode: SortMode, a: Record, b: Record, c: Record)
    requires Le(mode, a, b) && Le(mode, b, c)
    ensures Le(mode, a, c)
  {
    if mode.TitleAsc? {
      LexCompareTrans(TitleKey(a), TitleKey(b), TitleKey(c));
    } else if mode.TitleDesc? {
      LexCompareTrans(TitleKey(c), TitleKey(b), TitleKey(a));
    }
  }

  predicate Sorted(mode: SortMode, s: seq<Record>) {
    forall i, j :: 0 <= i < j < |s| ==> Le(mode, s[i], s[j])
  }

  /** Puts `x` before the first book it may precede: after every book that
      sorts strictly before it, before every book it ties with. */
  function Insert(mode: SortMode, x: Record, s: seq<Record>): (r: seq<Record>)
    ensures multiset(r) == multiset(s) + multiset{x}
  {
    if s == [] then [x]
    else if Le(mode, x, s[0]) then [x] + s
    else
      assert s == [s[0]] + s[1..];
      [s[0]] + Insert(mode, x, s[1..])
  }

  lemma {:induction false} InsertSorted(mode: SortMode, x: Record, s: seq<Record>)
    requires Sorted(mode, s)
    ensures Sorted(mode, Insert(mode, x, s))
  {
    if s != [] {
      if Le(mode, x, s[0]) {
        InsertFrontSorted(mode, x, s);
      } else {
        InsertSorted(mode, x, s[1..]);
        InsertLaterSorted(mode, x, s);
      }
    }
  }

  /** `x` in front of a sorted list whose first book it may precede. */
  lemma InsertFrontSorted(mode: SortMode, x: Record, s: seq<Record>)
    requires Sorted(mode, s) && s != [] && Le(mode, x, s[0])
    ensures Sorted(mode, [x] + s)
  {
    var r := [x] + s;
    forall i, j | 0 <= i < j < |r| ensures Le(mode, r[i], r[j]) {
      if i == 0 {
        if j > 1 {
          LeTrans(mode, x, s[0], s[j - 1]);
        }
      } else {
        assert r[i] == s[i - 1] && r[j] == s[j - 1];
      }
    }
  }

  /** Inserting adds `x` and nothing else. */
  lemma {:induction false} InsertFrom(mode: SortMode, x: Record, s: seq<Record>)
    ensures forall y :: y in Insert(mode, x, s) ==> y == x || y in s
  {
    if s != [] && !Le(mode, x, s[0]) {
      InsertFrom(mode, x, s[1..]);
      assert Insert(mode, x, s) == [s[0]] + Insert(mode, x, s[1..]);
    }
  }

  /** The first book kept in front of the sorted insertion into the rest. */
  lemma InsertLaterSorted(mode: SortMode, x: Record, s: seq<Record>)
    requires Sorted(mode, s) && s != [] && !Le(mode, x, s[0])
    requires Sorted(mode, Insert(mode, x, s[1..]))
    ensures Sorted(mode, Insert(mode, x, s))
  {
    LeTotal(mode, x, s[0]);
    var t := Insert(mode, x, s[1..]);
    assert Insert(mode, x, s) == [s[0]] + t;
    InsertFrom(mode, x, s[1..]);
    forall j | 0 <= j < |t| ensures Le(mode, s[0], t[j]) {
      assert t[j] in t;
      if t[j] != x {
        var k :| 0 <= k < |s[1..]| && s[1..][k] == t[j];
        assert s[k + 1] == t[j];
      }
    }
    SortedCons(mode, s[0], t);
  }

  /** A book that may precede every book of a sorted list, put in front of it. */
  lemma SortedCons(mode: SortMode, a: Record, t: seq<Record>)
    requires Sorted(mode, t) && forall j :: 0 <= j < |t| ==> Le(mode, a, t[j])
    ensures Sorted(mode, [a] + t)
  {
    var r := [a] + t;
    forall i, j | 0 <= i < j < |r| ensures Le(mode, r[i], r[j]) {
      assert r[j] == t[j - 1];
      if i > 0 { assert r[i] == t[i - 1]; }
    }
  }


  /** sortBooks: a stable sort of a copy of the list by the selected comparator. */
  function SortBooks(books: seq<Record>, mode: SortMode): (r: seq<Record>)
    ensures multiset(r) == multiset(books)
  {
    if books == [] then []
    else
      assert books == [books[0]] + books[1..];
      Insert(mode, books[0], SortBooks(books[1..], mode))
  }

  /** The sorted list is in the selected order. */
  lemma {:induction false} SortBooksSorted(books: seq<Record>, mode: SortMode)
    ensures Sorted(mode, SortBooks(books, mode))
  {
    if books != [] {
      SortBooksSorted(books[1..], mode);
      InsertSorted(mode, books[0], SortBooks(books[1..], mode));
    }
  }

  /** With an unknown selector value every comparison is a tie and the list
      keeps its order. */
  lemma {:induction false} SortUnorderedKeepsOrder(books: seq<Record>)
    ensures SortBooks(books, Unordered) == books
  {
    if books != [] {
      SortUnorderedKeepsOrder(books[1..]);
      SortBooksCons(books, Unordered);
      InsertUnordered(books[0], books[1..]);
      assert books == [books[0]] + books[1..];
    }
  }

  lemma SortBooksCons(books: seq<Record>, mode: SortMode)
    requires books != []
    ensures SortBooks(books, mode) == Insert(mode, books[0], SortBooks(books[1..], mode))
  {
  }

  /** Every book ties with every other, so it goes in front. */
  lemma InsertUnordered(x: Record, s: seq<Record>)
    ensures Insert(Unordered, x, s) == [x] + s
  {
    if s != [] {
      assert Le(Unordered, x, s[0]);
    }
  }

  // ---------------------------------------------------------------------------
  // searchBooks
  // ---------------------------------------------------------------------------

  /** A string property of the book, or '' when it is not a non-empty string. */
  function TextOf(book: Record, k: string): string {
    match Field(book, k)
    case Some(Str(s)) => s
    case _ => ""
  }

  /** The lower-cased title, author or format contains the lower-cased query. */
  predicate BookMatches(book: Record, lowerQuery: string) {
    || Includes(Lower(TextOf(book, "title")), lowerQuery)
    || Includes(Lower(TextOf(book, "author")), lowerQuery)
    || Includes(Lower(TextOf(book, "format")), lowerQuery)
  }

  /** searchBooks: every book for a blank query, otherwise the matching books. */
  function SearchBooks(books: seq<Record>, query: string): (r: seq<Record>)
    ensures Trim(query) == [] ==> r == books
  {
    if Trim(query) == [] then books
    else
      var lowerQuery := Lower(query);
      Filter(books, b => BookMatches(b, lowerQuery))
  }

  /** For a query that is not blank, a book is shown exactly when it is in the
      library and matches; the books shown keep their order. */
  lemma SearchBooksExact(books: seq<Record>, query: string)
    requires Trim(query) != []
    ensures var r := SearchBooks(books, query);
      && |r| <= |books|
      && (forall b :: b in r <==> b in books && BookMatches(b, Lower(query)))
      && r == Filter(books, b => BookMatches(b, Lower(query)))
  {
    var lowerQuery := Lower(query);
    var p := b => BookMatches(b, lowerQuery);
    forall b | b in books && BookMatches(b, lowerQuery) ensures b in SearchBooks(books, query) {
      FilterKeeps(books, p, b);
    }
  }

  // ---------------------------------------------------------------------------
  // updateStats
  // ---------------------------------------------------------------------------

  /** book.k || 0 for a numeric property. */
  function NumberOf(book: Record, k: string): int {
    match Field(book, k)
    case Some(Num(n)) => n
    case _ => 0
  }

  /** books.reduce((sum, book) => sum + (book.k || 0), 0) */
  function SumOf(books: seq<Record>, k: string): int {
    if books == [] then 0 else NumberOf(books[0], k) + SumOf(books[1..], k)
  }

  datatype Stats = Stats(totalBooks: nat, readingHours: int, avgProgress: int, totalBytes: int)

  /** updateStats: nothing for an empty library; otherwise the number of books,
      the reading time at 15000 characters an hour and the mean progress, both
      rounded, and the total size. */
  function UpdateStats(books: seq<Record>): (r: Option<Stats>)
    ensures r.None? <==> books == []
    ensures r.Some? ==> r.value.totalBooks == |books| && r.value.totalBytes == SumOf(books, "size")
  {
    if books == [] then None
    else Some(Stats(|books|,
                    RoundRatio(SumOf(books, "characters"), 15000),
                    RoundRatio(SumOf(books, "progress"), |books|),
                    SumOf(books, "size")))
  }

  lemma {:induction false} SumBounds(books: seq<Record>, k: string, lo: int, hi: int)
    requires forall i :: 0 <= i < |books| ==> lo <= NumberOf(books[i], k) <= hi
    ensures |books| * lo <= SumOf(books, k) <= |books| * hi
  {
    if books != [] {
      SumBounds(books[1..], k, lo, hi);
      assert |books| * lo == lo + (|books| - 1) * lo;
      assert |books| * hi == hi + (|books| - 1) * hi;
    }
  }

  lemma {:induction false} SumNonNegative(books: seq<Record>, k: string)
    requires forall i :: 0 <= i < |books| ==> 0 <= NumberOf(books[i], k)
    ensures 0 <= SumOf(books, k)
  {
    if books != [] {
      SumNonNegative(books[1..], k);
    }
  }

  /** When every book's progress is a percentage, so is the mean shown. */
  lemma AvgProgressInRange(books: seq<Record>)
    requires books != []
    requires forall i :: 0 <= i < |books| ==> 0 <= NumberOf(books[i], "progress") <= 100
    ensures 0 <= UpdateStats(books).value.avgProgress <= 100
  {
    var n := |books|;
    var total := SumOf(books, "progress");
    SumBounds(books, "progress", 0, 100);
    var r := RoundRatio(total, n);
    assert 2 * r * n <= 2 * total + n < 2 * (r + 1) * n;
    MulMonotone(-1, r, n);
    MulMonotone(r, 101, n);
  }

  /** The reading time never goes negative for books of non-negative length. */
  lemma ReadingHoursNonNegative(books: seq<Record>)
    requires books != []
    requires forall i :: 0 <= i < |books| ==> 0 <= NumberOf(books[i], "characters")
    ensures 0 <= UpdateStats(books).value.readingHours
    ensures SumOf(books, "characters") < 7500 ==> UpdateStats(books).value.readingHours == 0
  {
    SumNonNegative(books, "characters");
    var total := SumOf(books, "characters");
    var r := RoundRatio(total, 15000);
    MulMonotone(-1, r, 15000);
    if total < 7500 {
      MulMonotone(r, 1, 15000);
    }
  }

  // ---------------------------------------------------------------------------
  // exportLibrary
  // ---------------------------------------------------------------------------

  /** The properties a backup keeps of each book (the text is not exported). */
  const ExportKeys: set<string> := {"id", "title", "author", "format", "addedAt", "progress", "metadata"}

  /** The object literal built for a book; JSON.stringify drops the properties
      the book does not have. */
  function Project(book: Record): (r: Record)
    ensures r.Keys == book.Keys * ExportKeys
    ensures forall k :: k in r ==> r[k] == book[k]
  {
    map k | k in book.Keys * ExportKeys :: book[k]
  }

  /** Exporting an exported book again changes nothing. */
  lemma ProjectIdempotent(book: Record)
    ensures Project(Project(book)) == Project(book)
  {
  }

  datatype Backup = Backup(version: string, date: int, books: seq<Record>)

  /** exportLibrary: version '1.0', the export time, and the books in library
      order, each cut down to the exported properties. */
  function ExportLibrary(books: seq<Record>, now: int): (r: Backup)
    ensures r.version == "1.0" && r.date == now && |r.books| == |books|
    ensures forall i :: 0 <= i < |books| ==> r.books[i] == Project(books[i])
  {
    Backup("1.0", now, seq(|books|, i requires 0 <= i < |books| => Project(books[i])))
  }

  /** No exported book carries its text. */
  lemma ExportDropsContent(books: seq<Record>, now: int)
    ensures forall i :: 0 <= i < |books| ==> "content" !in ExportLibrary(books, now).books[i]
  {
  }
}
