/**
 * The upload page (file-upload.js): which dropped files are accepted, the loop
 * that reads and saves them one by one while counting successes and failures,
 * the progress bar, the per-file status labels and the closing message.
 *
 * Reading a file (FileReader, mammoth, pdf.js) and saving it are outside the
 * model: the outcome for each file is a parameter.
 */
module FileUpload {
  import opened Text
  import opened Seqs
  import opened Records
  import opened BookText

  const MaxFileSize: int := 50 * 1024 * 1024
  const SupportedFormats: seq<string> := ["txt", "docx", "pdf"]

  /** A dropped file: its name and its size in bytes. */
  datatype FileInfo = FileInfo(name: string, size: int)

  /** What readFile resolves with: the text, the document metadata and the
      page count (0 when the format has none). */
  datatype BookData = BookData(content: string, metadata: Record, pages: int)

  // ---------------------------------------------------------------------------
  // validateFiles
  // ---------------------------------------------------------------------------

  /** The file is at most 50 MB and its format is txt, docx or pdf. */
  predicate Accepts(file: FileInfo) {
    file.size <= MaxFileSize && Lower(FileFormat(file.name)) in SupportedFormats
  }

  /** validateFiles: the accepted files, in the order they were dropped. */
  function ValidateFiles(files: seq<FileInfo>): (r: seq<FileInfo>)
  {
    Filter(files, Accepts)
  }

  /** A file is kept exactly when it is small enough and its extension, in any
      case, is txt, docx or pdf; nothing else is kept and the order stays. */
  lemma ValidateFilesExact(files: seq<FileInfo>)
    ensures var r := ValidateFiles(files);
      && |r| <= |files|
      && (forall f :: f in r <==> f in files && f.size <= MaxFileSize && FileFormat(f.name) in SupportedFormats)
  {
    forall f | f in files
      ensures Accepts(f) <==> f.size <= MaxFileSize && FileFormat(f.name) in SupportedFormats
    {
      FileFormatIsExtension(f.name);
      var pieces := Split(f.name, '.');
      LowerIdempotent(pieces[|pieces| - 1]);
    }
    forall f | f in files && Accepts(f) ensures f in ValidateFiles(files) {
      FilterKeeps(files, Accepts, f);
    }
  }

  // ---------------------------------------------------------------------------
  // The book record
  // ---------------------------------------------------------------------------

  /** { ...bookData.metadata, originalFilename, fileSize, pages: pages || 0 } */
  function UploadMetadata(file: FileInfo, data: BookData): (r: Record)
    ensures "originalFilename" in r && r["originalFilename"] == Str(file.name)
    ensures "fileSize" in r && r["fileSize"] == Num(file.size)
    ensures "pages" in r && r["pages"] == Num(data.pages)
    ensures forall k :: k in data.metadata && k !in {"originalFilename", "fileSize", "pages"}
                        ==> k in r && r[k] == data.metadata[k]
  {
    data.metadata + map["originalFilename" := Str(file.name), "fileSize" := Num(file.size),
                        "pages" := Num(data.pages)]
  }

  /** The book object built for an uploaded file, whose shape is fixed. */
  datatype UploadedBook = UploadedBook(
    id: string, title: string, author: string, content: string, format: string,
    size: int, addedAt: int, progress: int, characters: nat, metadata: Record)

  // ---------------------------------------------------------------------------
  // processFiles
  // ---------------------------------------------------------------------------

  /** The progress bar: Math.round((processed + errors) / total * 100). */
  function UploadPercent(processed: nat, errors: nat, total: nat): (r: int)
    requires total > 0
  {
    Percent(processed + errors, total)
  }

  /** The number of files whose read and save succeed. */
  function Succeeded(files: seq<FileInfo>, read: FileInfo -> Option<BookData>, canSave: bool): nat
  {
    if files == [] then 0
    else (if read(files[0]).Some? && canSave then 1 else 0) + Succeeded(files[1..], read, canSave)
  }

  function TotalSize(files: seq<FileInfo>): int {
    if files == [] then 0 else files[0].size + TotalSize(files[1..])
  }

  lemma {:induction false} SucceededAppend(a: seq<FileInfo>, f: FileInfo, read: FileInfo -> Option<BookData>, canSave: bool)
    ensures Succeeded(a + [f], read, canSave)
         == Succeeded(a, read, canSave) + (if read(f).Some? && canSave then 1 else 0)
    ensures TotalSize(a + [f]) == TotalSize(a) + f.size
  {
    if a != [] {
      assert (a + [f])[1..] == a[1..] + [f];
      SucceededAppend(a[1..], f, read, canSave);
    }
  }

  /** An uploaded book starts unread, counts its characters, and its metadata
      names the original file, its size and its page count. */
  predicate SavedShape(b: UploadedBook) {
    && b.progress == 0 && b.characters == |b.content|
    && "originalFilename" in b.metadata && "fileSize" in b.metadata && "pages" in b.metadata
    && b.metadata["fileSize"] == Num(b.size)
  }

  /** The book built for `file` from what was read, with id `id`, added at
      `now`: extracted title and author, unread, its characters counted. */
  function UploadedBookOf(file: FileInfo, data: BookData, id: string, now: int): UploadedBook
  {
    UploadedBook(id, TitleOf(file.name, data.content), AuthorOf(data.content), data.content,
                 FileFormat(file.name), file.size, now, 0, |data.content|, UploadMetadata(file, data))
  }

  /** A book built from an upload has the uploaded shape. */
  lemma UploadedBookShape(file: FileInfo, data: BookData, id: string, now: int)
    ensures SavedShape(UploadedBookOf(file, data, id, now))
  {
  }

  /** The books one run saves, in the order of the files: for file k that reads
      and can be saved, the book built from it with id `freshId(k)`. */
  function SavedBooks(files: seq<FileInfo>, read: FileInfo -> Option<BookData>, canSave: bool,
                      freshId: nat -> string, now: int): seq<UploadedBook>
    decreases |files|
  {
    if files == [] then []
    else
      var k := |files| - 1;
      SavedBooks(files[..k], read, canSave, freshId, now)
        + (if read(files[k]).Some? && canSave then [UploadedBookOf(files[k], read(files[k]).value, freshId(k), now)] else [])
  }

  /** The book object processFiles builds for a file that was read. */
  method MakeBook(file: FileInfo, data: BookData, freshId: string, now: int) returns (book: UploadedBook)
    ensures SavedShape(book)
    ensures book.id == freshId && book.content == data.content && book.size == file.size
    ensures book.title == TitleOf(file.name, data.content) && book.author == AuthorOf(data.content)
    ensures book.format == FileFormat(file.name) && book.metadata == UploadMetadata(file, data)
    ensures book.addedAt == now
  {
    var title := ExtractTitle(file.name, data.content);
    var author := ExtractAuthor(data.content);
    book := UploadedBook(freshId, title, author, data.content, FileFormat(file.name),
                         file.size, now, 0, |data.content|, UploadMetadata(file, data));
  }

  /** The try block of processFiles for one file: the book is built from what
      was read and saved when the library manager is there; a failed read or a
      missing manager is an error (None). */
  method TryFile(file: FileInfo, read: FileInfo -> Option<BookData>, canSave: bool,
                 freshId: string, now: int)
    returns (book: Option<UploadedBook>)
    ensures book.Some? <==> read(file).Some? && canSave
    ensures book.Some? ==>
      && SavedShape(book.value)
      && book.value.id == freshId && book.value.size == file.size
      && book.value.content == read(file).value.content
      && book.value == UploadedBookOf(file, read(file).value, freshId, now)
  {
    var bookData := read(file);
    if bookData.None? {
      return None;
    }
    var b := MakeBook(file, bookData.value, freshId, now);
    if canSave {
      book := Some(b);
    } else {
      book := None;
    }
  }

  /** One round of processFiles' loop: file k's book, when there is one, comes
      next in the saved list. */
  lemma SavedBooksStep(files: seq<FileInfo>, k: nat, read: FileInfo -> Option<BookData>, canSave: bool,
                       freshId: nat -> string, now: int, saved: seq<UploadedBook>, book: Option<UploadedBook>)
    requires k < |files|
    requires saved == SavedBooks(files[..k], read, canSave, freshId, now)
    requires book.Some? <==> read(files[k]).Some? && canSave
    requires book.Some? ==> book.value == UploadedBookOf(files[k], read(files[k]).value, freshId(k), now)
    ensures (if book.Some? then saved + [book.value] else saved)
         == SavedBooks(files[..k + 1], read, canSave, freshId, now)
  {
    assert files[..k + 1][..k] == files[..k];
  }

  /** One round of processFiles' loop: the bar after file k + 1 is appended. */
  lemma ProgressStep(progress: seq<int>, k: nat, total: nat, p: int)
    requires |progress| == k && total > 0
    requires forall j :: 0 <= j < k ==> progress[j] == Percent(j + 1, total)
    requires p == Percent(k + 1, total)
    ensures forall j :: 0 <= j < k + 1 ==> (progress + [p])[j] == Percent(j + 1, total)
  {
  }

  /** The saved list of a non-empty run: that of all files but the last, then
      the last file's book when it has one. */
  lemma SavedBooksLast(files: seq<FileInfo>, read: FileInfo -> Option<BookData>, canSave: bool,
                       freshId: nat -> string, now: int)
    requires files != []
    ensures var k := |files| - 1;
      SavedBooks(files, read, canSave, freshId, now)
        == SavedBooks(files[..k], read, canSave, freshId, now)
           + (if read(files[k]).Some? && canSave then [UploadedBookOf(files[k], read(files[k]).value, freshId(k), now)] else [])
  {
  }

  /** One saved book per success. */
  lemma {:induction false} SavedBooksCount(files: seq<FileInfo>, read: FileInfo -> Option<BookData>, canSave: bool,
                                           freshId: nat -> string, now: int)
    ensures |SavedBooks(files, read, canSave, freshId, now)| == Succeeded(files, read, canSave)
    decreases |files|
  {
    if files != [] {
      var k := |files| - 1;
      SavedBooksLast(files, read, canSave, freshId, now);
      SavedBooksCount(files[..k], read, canSave, freshId, now);
      SucceededAppend(files[..k], files[k], read, canSave);
      assert files[..k] + [files[k]] == files;
    }
  }

  /** Every saved book has the uploaded shape. */
  lemma {:induction false} SavedBooksShape(files: seq<FileInfo>, read: FileInfo -> Option<BookData>, canSave: bool,
                                           freshId: nat -> string, now: int)
    ensures forall b :: b in SavedBooks(files, read, canSave, freshId, now) ==> SavedShape(b)
    decreases |files|
  {
    if files != [] {
      var k := |files| - 1;
      SavedBooksLast(files, read, canSave, freshId, now);
      SavedBooksShape(files[..k], read, canSave, freshId, now);
      if read(files[k]).Some? && canSave {
        UploadedBookShape(files[k], read(files[k]).value, freshId(k), now);
      }
    }
  }

  /** What processFiles has counted, shown and stored after the first k
      accepted files. */
  predicate UploadedSoFar(valid: seq<FileInfo>, read: FileInfo -> Option<BookData>, canSave: bool,
                          freshId: nat -> string, now: int, k: nat, processed: nat, errors: nat,
                          totalSize: int, progress: seq<int>, saved: seq<UploadedBook>)
    requires k <= |valid|
  {
    && processed + errors == k
    && processed == Succeeded(valid[..k], read, canSave)
    && totalSize == TotalSize(valid[..k])
    && |progress| == k
    && (forall j :: 0 <= j < k ==> progress[j] == Percent(j + 1, |valid|))
    && saved == SavedBooks(valid[..k], read, canSave, freshId, now)
  }

  /** One round of processFiles' loop over file k: one more success or error,
      its size added, the bar appended, and its book saved when it has one. */
  lemma UploadStep(valid: seq<FileInfo>, read: FileInfo -> Option<BookData>, canSave: bool,
                   freshId: nat -> string, now: int, k: nat, processed: nat, errors: nat,
                   totalSize: int, progress: seq<int>, saved: seq<UploadedBook>, book: Option<UploadedBook>)
    requires k < |valid|
    requires UploadedSoFar(valid, read, canSave, freshId, now, k, processed, errors, totalSize, progress, saved)
    requires book.Some? <==> read(valid[k]).Some? && canSave
    requires book.Some? ==> book.value == UploadedBookOf(valid[k], read(valid[k]).value, freshId(k), now)
    ensures var p := processed + (if book.Some? then 1 else 0);
      var e := errors + (if book.Some? then 0 else 1);
      UploadedSoFar(valid, read, canSave, freshId, now, k + 1, p, e, totalSize + valid[k].size,
                    progress + [UploadPercent(p, e, |valid|)], if book.Some? then saved + [book.value] else saved)
  {
    var p := processed + (if book.Some? then 1 else 0);
    var e := errors + (if book.Some? then 0 else 1);
    SavedBooksStep(valid, k, read, canSave, freshId, now, saved, book);
    ProgressStep(progress, k, |valid|, UploadPercent(p, e, |valid|));
    SucceededAppend(valid[..k], valid[k], read, canSave);
    TakeStep(valid, k);
  }

  /** What one run of processFiles shows and stores. */
  datatype UploadReport = UploadReport(
    processed: nat, errors: nat, total: nat, totalSize: int,
    progress: seq<int>, saved: seq<UploadedBook>, message: Option<string>)

  /** What processFiles shows and stores after handling `valid`, the accepted
      files, in turn: each counted as processed or as an error, the progress
      bar after each one, and one saved book per success. */
  predicate ReportsOn(valid: seq<FileInfo>, read: FileInfo -> Option<BookData>, canSave: bool,
                      freshId: nat -> string, now: int, r: UploadReport)
  {
    && r.total == |valid| > 0
    && r.processed + r.errors == r.total
    && r.processed == Succeeded(valid, read, canSave)
    && r.totalSize == TotalSize(valid)
    && |r.progress| == r.total
    && (forall k :: 0 <= k < |r.progress| ==> r.progress[k] == Percent(k + 1, r.total))
    && |r.saved| == r.processed
    && r.saved == SavedBooks(valid, read, canSave, freshId, now)
    && (forall b :: b in r.saved ==> SavedShape(b))
    && r.message == CompletionMessage(r.processed, r.errors, r.total)
  }

  /** processFiles: nothing for no accepted file; otherwise the report of
      handling every accepted file. `read` is None where readFile fails,
      `canSave` says whether the library manager is there, and file k gets id
      `freshId(k)`. */
  method ProcessFiles(files: seq<FileInfo>, read: FileInfo -> Option<BookData>, canSave: bool,
                      freshId: nat -> string, now: int)
    returns (report: Option<UploadReport>)
    ensures ValidateFiles(files) == [] <==> report.None?
    ensures report.Some? ==> ReportsOn(ValidateFiles(files), read, canSave, freshId, now, report.value)
  {
    var validFiles := ValidateFiles(files);
    if |validFiles| == 0 {
      return None;
    }
    var r := UploadAll(validFiles, read, canSave, freshId, now);
    report := Some(r);
  }

  /** The loop of processFiles over the accepted files. */
  method UploadAll(validFiles: seq<FileInfo>, read: FileInfo -> Option<BookData>, canSave: bool,
                   freshId: nat -> string, now: int)
    returns (report: UploadReport)
    requires validFiles != []
    ensures ReportsOn(validFiles, read, canSave, freshId, now, report)
  {
    var total := |validFiles|;
    var processed: nat := 0;
    var errors: nat := 0;
    var totalSize := 0;
    var progress: seq<int> := [];
    var saved: seq<UploadedBook> := [];
    var k := 0;
    while k < total
      invariant k <= total
      invariant UploadedSoFar(validFiles, read, canSave, freshId, now, k, processed, errors, totalSize, progress, saved)
    {
      var file := validFiles[k];
      var book := TryFile(file, read, canSave, freshId(k), now);
      UploadStep(validFiles, read, canSave, freshId, now, k, processed, errors, totalSize, progress, saved, book);
      totalSize := totalSize + file.size;
      if book.Some? {
        saved := saved + [book.value];
        processed := processed + 1;
      } else {
        errors := errors + 1;
      }
      progress := progress + [UploadPercent(processed, errors, total)];
      k := k + 1;
    }
    assert validFiles[..k] == validFiles;
    SavedBooksCount(validFiles, read, canSave, freshId, now);
    SavedBooksShape(validFiles, read, canSave, freshId, now);
    report := UploadReport(processed, errors, total, totalSize, progress, saved,
                           CompletionMessage(processed, errors, total));
  }

  /** The bar starts above 0 after the first file only when there are at most
      200 files, and always ends at 100. */
  lemma UploadProgressEnds(total: nat)
    requires total > 0
    ensures Percent(total, total) == 100
    ensures forall k :: 1 <= k <= total ==> 0 <= Percent(k, total) <= 100
  {
    PercentBounds(total, total);
    forall k | 1 <= k <= total ensures 0 <= Percent(k, total) <= 100 {
      PercentBounds(k, total);
    }
  }

  // ---------------------------------------------------------------------------
  // Status labels and the closing message
  // ---------------------------------------------------------------------------

  /** getStatusText */
  function StatusText(status: string, errorMessage: string): (r: string)
  {
    if status == "processing" then "Обработка..."
    else if status == "success" then "Успешно"
    else if status == "error" then (if errorMessage != "" then errorMessage else "Ошибка")
    else "Ожидание"
  }

  /** A status always has a label; an error shows its message when it has one. */
  lemma StatusTextCases(status: string, errorMessage: string)
    ensures StatusText(status, errorMessage) != ""
    ensures status == "error" && errorMessage != "" ==> StatusText(status, errorMessage) == errorMessage
    ensures status != "error" ==> StatusText(status, errorMessage) in {"Обработка...", "Успешно", "Ожидание"}
  {
  }

  /** getStatusIcon */
  function StatusIcon(status: string): (r: string)
  {
    if status == "success" then "<i class=\"fas fa-check-circle\"></i>"
    else if status == "error" then "<i class=\"fas fa-exclamation-circle\"></i>"
    else if status == "processing" then "<i class=\"fas fa-spinner fa-spin\"></i>"
    else ""
  }

  /** Exactly the three known statuses get an icon. */
  lemma StatusIconPresent(status: string)
    ensures StatusIcon(status) != "" <==> status in {"success", "error", "processing"}
  {
  }

  const AllFailedMessage := "Все файлы не удалось обработать"

  /** showCompletionNotification's choice of message. */
  function CompletionMessage(processed: nat, errors: nat, total: nat): (r: Option<string>)
  {
    if errors == 0 && processed > 0 then
      Some("Все " + DecimalString(processed) + " файлов успешно обработаны")
    else if processed > 0 && errors > 0 then
      Some("Обработано " + DecimalString(processed) + " из " + DecimalString(total)
           + " файлов (" + DecimalString(errors) + " ошибок)")
    else if errors == total then Some(AllFailedMessage)
    else None
  }

  /** After a run over at least one file there is always a message: all
      succeeded, some failed, or all failed, in that order of checks. */
  lemma CompletionMessageCases(processed: nat, errors: nat, total: nat)
    requires total > 0 && processed + errors == total
    ensures CompletionMessage(processed, errors, total).Some?
    ensures errors == 0 <==>
      CompletionMessage(processed, errors, total).value
        == "Все " + DecimalString(processed) + " файлов успешно обработаны"
    ensures processed == 0 <==> CompletionMessage(processed, errors, total).value == AllFailedMessage
  {
    var m := CompletionMessage(processed, errors, total).value;
    if errors == 0 {
      assert m[..4] == "Все ";
      assert m[4] == DecimalString(processed)[0];
      assert AllFailedMessage[4] == 'ф';
    } else if processed == 0 {
      assert m[..4] == "Все ";
      assert m != "Все " + DecimalString(processed) + " файлов успешно обработаны" by {
        assert |m| == 31;
        var other := "Все " + DecimalString(processed) + " файлов успешно обработаны";
        assert other[4..] == DecimalString(processed) + " файлов успешно обработаны";
        assert m[4] == 'ф';
        assert DecimalString(processed)[0] != 'ф';
      }
    } else {
      assert m[0] == 'О';
    }
  }
}
