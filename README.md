# MoYue reader: a verified model of its core logic

MoYue is a browser e-book reader. It has a paged reader and a chapter reader,
a library kept in IndexedDB, file upload (txt, docx, pdf), sharing of a book by
link or QR code, password- and quota-limited share sessions, text annotations,
and a home page with a reviews slider and a library preview. Most of the code
is DOM wiring and storage. This project models the logic inside the handlers
and proves what it promises:

- `Text`: the JavaScript string built-ins the code calls (trim, case mapping
  for Latin and Cyrillic letters, indexOf/includes, split, substring, parseInt,
  decimal rendering, Math.round of a ratio).
- `Seqs`: `Array.prototype.filter` and `findIndex`, with their lemmas.
- `Records`: a JavaScript object of the share format, as a map from property
  names to values. Object spread is map union and `delete` is key removal.
- `Base64`: `btoa` (RFC 4648 section 4) and the forgiving `atob` decoder of the
  WHATWG HTML standard, with the round trip proved.
- `QrShare` (qr-share.js):
  - the XOR-0x55 obfuscation;
  - the byte-array/base64 loops;
  - the share envelope built by `prepareShareData`;
  - the ordered checks of `processImportData`;
  - link and data-file payload extraction.
- `ShareSessions` (advanced-qr-share.js, session-manager.js):
  - session creation and the session id;
  - the IV‖ciphertext frame;
  - the share URL;
  - both remaining-time formatters;
  - session regeneration;
  - the expiry sweep, revocation and the active/inactive lists;
  - the import checks of the import page.
- `Reading` (reader.js): word pagination, page navigation, progress, the
  bookmark map and the all-occurrences search.
- `AdvancedReading` (advanced-reader.js): line-chunk chapters, chapter
  navigation, the bookmark list, the table-of-contents search and the search
  preview.
- `BookText`: the text helpers shared by library.js, file-upload.js and
  script.js. These are file format, title and author extraction, truncation
  and the cover letter.
- `Library` (library.js): id assignment, the progress clamp, sorting,
  searching, statistics and the export projection.
- `FileUpload` (file-upload.js): validation, the upload loop and its
  counters, the status labels and the completion message.
- `Annotations` (annotations.js, advanced-reader.js): selection gating,
  annotation creation, the context window, the wrap split, filtering, search
  and deletion.
- `Slider` (script.js): the reviews slider's index logic and the library
  preview.

State the source changes in place is a class with `modifies` frames. These are
`Reading.Reader`, `AdvancedReading.AdvancedReader`, `Library.LibraryManager`,
`ShareSessions.SessionManager`, `ShareSessions.AdvancedQrShare`,
`Annotations.AnnotationManager` and `Slider.ReviewsSlider`. Loops the source
writes are methods with invariants, proved against a specification function.

Things outside the model become parameters:
- clocks are integer milliseconds and ids are fresh strings;
- `JSON.stringify`/`JSON.parse`, pako, AES-GCM, `new URL`, `readFile` and
  "is the library manager there" are function or boolean parameters.

## Model

| member | source | states |
|---|---|---|
| Base64.EncodeShape | qr-share.js:758 | btoa output has length 4·⌈n/3⌉ and uses only the base64 alphabet and `=` |
| Base64.DecodeEncode | qr-share.js:752-768 | decoding the encoding of any byte sequence gives it back (RFC 4648 section 4) |
| Base64.DecodeEncodeChar | qr-share.js:758 | every 6-bit value survives the alphabet round trip |
| Base64.Btoa | qr-share.js:777 | btoa succeeds exactly when every character is below 256 |
| Base64.Atob | qr-share.js:782 | a successful atob yields a binary string (every character below 256) |
| Base64.AtobBtoa | qr-share.js:777-782 | atob inverts btoa on every binary string |
| Base64.CharsOfBytesOf | qr-share.js:752-767 | bytes → characters → bytes is the identity (String.fromCharCode / charCodeAt) |
| QrShare.XorInvolution | qr-share.js:770-788 | (a ^ b) ^ b == a for all naturals |
| QrShare.XorKeepsHigh | qr-share.js:775 | xor with a value below 2^k leaves the bits from k up unchanged |
| QrShare.MaskChar | qr-share.js:775 | the masked character is c ^ 0x55 and keeps the high byte of c |
| QrShare.MaskInvolution | qr-share.js:770-788 | masking twice gives back the original string |
| QrShare.MaskKeepsBinary | qr-share.js:775 | masking keeps a string binary, and a non-binary one non-binary |
| QrShare.EncryptTextFails | qr-share.js:770-778 | simpleEncrypt throws exactly when the text has a character from 256 up |
| QrShare.DecryptEncrypt | qr-share.js:770-788 | for every binary text, decrypting the encryption gives it back |
| QrShare.MaskLoop | qr-share.js:773-776 | the indexed loop computes the per-character mask |
| QrShare.SimpleEncrypt | qr-share.js:770-778 | the loop plus btoa, and its output decrypts to the input |
| QrShare.SimpleDecrypt | qr-share.js:780-788 | atob of `content` or else `data`, the mask loop, then JSON.parse; fails where any of them throws |
| QrShare.BytesOfCharsOf | qr-share.js:755-766 | characters made from bytes read back as the same bytes |
| QrShare.ArrayBufferToBase64 | qr-share.js:752-759 | the loop result is the base64 of the buffer, and it decodes back to the buffer |
| QrShare.Base64ToArrayBuffer | qr-share.js:761-768 | fails exactly where atob throws; otherwise a fresh array holding the decoded bytes |
| QrShare.Header | qr-share.js:323-327 | the envelope header: version `1.0`, the timestamp, and expiry at +24 h only when the box is checked, else null |
| QrShare.ShareCopy | qr-share.js:293-297 | the copy lacks `id` and `addedAt` and keeps every other field unchanged |
| QrShare.PrepareShareDataEnvelope | qr-share.js:291-340 | the envelope keeps the book's own fields, including the plain content, without id/addedAt; it carries the flags as chosen and the header fields the book does not override; its data field is the base64 of its JSON |
| QrShare.PrepareShareDataFails | qr-share.js:316-319 | with encryption on (the default), a JSON text with a character from 256 up makes prepareShareData throw |
| QrShare.ImportResult.Message | qr-share.js:535-538 | every failure is reported with the single message "Невозможно обработать данные книги", and success with none |
| QrShare.ProcessImportData | qr-share.js:476-539 | an imported book has progress 0, the fresh id and addedAt, and a truthy title and content |
| QrShare.ImportCheckOrder | qr-share.js:487-494 | a version other than `1.0` is refused before expiry is looked at; then an expiry in the past is refused; a success passed both |
| QrShare.ImportPlainEnvelope | qr-share.js:498-531 | a plain envelope imports with exactly its own keys minus version/timestamp/expires plus addedAt/id/progress, other fields unchanged |
| QrShare.ImportNeedsTitleAndContent | qr-share.js:524-526 | a record without a title is refused |
| QrShare.EncryptedShareOfPlainContentFails | qr-share.js:505-511 | an envelope flagged encrypted whose content is plain text fails at the decryption step |
| QrShare.ImportPayload | qr-share.js:437-447 | a URL yields its non-empty `import` parameter; a non-URL yields the whole link; an empty payload is refused |
| QrShare.CheckDataFile | qr-share.js:664-674 | only `.moyue`/`.json` names pass; the payload is the `data` of a record whose type is `moyue-book` |
| QrShare.VersionedBookShareRefused | qr-share.js:323-329 | (as written) a book that carries its own `version` keeps it in the envelope, and the share can never be imported |
| QrShare.HeaderLastVersion | qr-share.js:323-329 | (corrected) with the header applied last, the envelope's version is `1.0` and it passes the envelope checks for 24 h |
| ShareSessions.MaxDownloadsFrom | advanced-qr-share.js:102 | an absent or empty input gives the default 10; otherwise parseInt of the input with no radix (a `0x` prefix reads base 16) |
| Text.ParseHexPrefix | advanced-qr-share.js:102 | with no radix, `0x10` reads as 16 |
| Text.ParseHexEmpty | advanced-qr-share.js:102 | `0x` with no digit after it reads as NaN |
| ShareSessions.NewSession | advanced-qr-share.js:92-110 | a new session has 0 downloads, is active, expires 24 h after creation and is password-protected exactly when the box is checked |
| ShareSessions.NewSessionImportable | advanced-qr-share.js:549-591 | a new unprotected session with a positive quota imports within its 24 h |
| ShareSessions.Base36RoundTrip | advanced-qr-share.js:187 | the base-36 rendering of a natural reads back as the same number |
| ShareSessions.GenerateSessionId | advanced-qr-share.js:186-188 | a session id is `sess_`, then the clock in base 36, then the random part |
| ShareSessions.SplitIv | advanced-qr-share.js:164-165 | the IV part and the ciphertext part concatenate to the input; the IV part has 12 bytes, or all of a shorter input |
| ShareSessions.SplitFrame | advanced-qr-share.js:141-165 | splitting iv‖ct at 12 recovers exactly iv and ct |
| ShareSessions.DecodeFrame | advanced-qr-share.js:157-165 | fails exactly where atob throws; otherwise the IV/ciphertext split of the decoded bytes |
| ShareSessions.DecodeEncodeFrame | advanced-qr-share.js:141-165 | decoding an encoded frame gives iv‖ct, and splitting it gives back iv and ct |
| ShareSessions.RemoveFirst | advanced-qr-share.js:267 | String.replace with a string pattern: unchanged without a match; otherwise the first occurrence (none starts earlier) is cut out and the text on both sides of it is kept |
| ShareSessions.CreateShareUrl | advanced-qr-share.js:255-268 | the URL points at import.html with `session`, `v=2.0` and `t` first, and has `p=1` exactly when the session is password-protected |
| ShareSessions.ShareUrlTime | advanced-qr-share.js:260 | `t` is the time the URL was built (`Date.now()`, not the session's creation time): its digits read back as that time |
| ShareSessions.TimeLeftHm | advanced-qr-share.js:293-303 | "Истек" exactly when diff ≤ 0; otherwise whole hours and minutes below 60 that bracket diff to the minute |
| ShareSessions.TimeLeftDh | session-manager.js:306-319 | no date means no limit; "Истек" exactly when diff ≤ 0; otherwise whole days and hours below 24 that bracket diff to the hour |
| ShareSessions.TimeLeftAgree | advanced-qr-share.js:293-303 | the two formatters agree on expiry, and hours = 24·days + hours |
| ShareSessions.Deactivate | session-manager.js:66 | a deactivated session is inactive |
| ShareSessions.Sweep | session-manager.js:57-71 | the sweep keeps the list's length |
| ShareSessions.SweepEffect | session-manager.js:57-67 | every expired or inactive session ends inactive; every other session is untouched; only `isActive` changes |
| ShareSessions.SweepIdempotent | session-manager.js:57-71 | after a sweep no active session is stale, and a second sweep changes nothing |
| ShareSessions.StaleBatchIsInactive | session-manager.js:59-69 | the persisted batch is exactly the inactive sessions after the sweep |
| ShareSessions.ActiveInactivePartition | session-manager.js:139-140 | the active and inactive lists partition the session list |
| ShareSessions.SessionManager.constructor | session-manager.js:4-13 | the manager starts with the loaded list |
| ShareSessions.SessionManager.CleanupExpiredSessions | session-manager.js:57-71 | the list becomes its sweep; something is persisted exactly when some session was stale, and then it is the inactive ones |
| ShareSessions.FindSession | session-manager.js:259 | Array.find: the first session with the id, or none when no session has it |
| ShareSessions.RevokeEffect | session-manager.js:258-264 | an unknown id or a declined confirm is a no-op; otherwise only the first match changes, becoming inactive with revokedAt = now |
| ShareSessions.SessionManager.RevokeSession | session-manager.js:258-272 | the list becomes the revoked list, and the revoked session alone is persisted |
| ShareSessions.DeactivationOneWay | session-manager.js:57-71 | neither revoke nor the sweep ever makes a session active, and the sweep never adds active sessions |
| ShareSessions.AdvancedQrShare.constructor | advanced-qr-share.js:4-10 | no book chosen, no session and nothing saved |
| ShareSessions.AdvancedQrShare.CreateShareSession | advanced-qr-share.js:92-114 | the new session becomes current; when encryption throws, it has no data, nothing is saved and the call fails; otherwise it carries the encrypted data and is appended to the saved ones |
| ShareSessions.AdvancedQrShare.GenerateNewSession | advanced-qr-share.js:364-381 | without a book id nothing happens; otherwise the old session is saved deactivated, the new one becomes current when the book is found, and it is saved only when its encryption succeeds |
| ShareSessions.ProcessImport | advanced-qr-share.js:549-591 | a save happens only for a present session under its quota and not expired, with a password when it is protected; the counted session is that one and the book is its decryption |
| ShareSessions.ImportCheckOrder | advanced-qr-share.js:554-575 | a missing session is refused; password first, then the download quota, then expiry |
| ShareSessions.InitImport | advanced-qr-share.js:519-531 | no session parameter is an invalid link; `p=1` shows the password prompt |
| ShareSessions.SubmitPassword | advanced-qr-share.js:538-545 | an empty password alerts; otherwise the import runs with it |
| ShareSessions.RevokedSessionStillImports | advanced-qr-share.js:549-591 | (as written) a revoked session inside its quota and time still imports |
| ShareSessions.ProcessImportActiveOnly | advanced-qr-share.js:549-591 | (corrected) only an active session imports; for active ones the outcome is the original's |
| ShareSessions.SweptSessionRefused | advanced-qr-share.js:549-591 | (corrected) no session the sweep made inactive can be imported |
| Reading.PagesOf | reader.js:93-96 | one page per chunk |
| Reading.ChunksFlatten | reader.js:89-96 | concatenating the pages' word chunks gives back the word list |
| Reading.ChunksShape | reader.js:93-96 | ⌈n/500⌉ chunks, each of 1 to 500 words, all but the last exactly 500 |
| Reading.PaginateNeverEmpty | reader.js:83-102 | there is always a page; missing or empty content gives exactly the placeholder page |
| Reading.Reader.constructor | reader.js:4-17 | a reader starts with no pages on page 0 and the stored bookmarks |
| Reading.Reader.PaginateText | reader.js:83-102 | the loop fills the pages with the pagination of the content |
| Reading.RestoredPage | reader.js:104-111 | the restored page lies in [0, pages−1]: a saved page in range is kept, others are clamped |
| Reading.Reader.LoadProgress | reader.js:104-111 | nothing saved keeps the page; otherwise the clamped saved page |
| Reading.Reader.PrevPage | reader.js:280-286 | one page back only from above page 0; otherwise unchanged |
| Reading.Reader.NextPage | reader.js:288-294 | one page on only below the last page; otherwise unchanged |
| Reading.PageProgressBounds | reader.js:268 | progress lies in 0..100, is 100 on the last page, and is at least 1 for books of up to 200 pages |
| Reading.FirstPageOfLongBook | reader.js:121 | the first page of a 300-page book shows 0 % |
| Reading.Reader.Progress | reader.js:268 | in 0..100 and 100 on the last page |
| Reading.BookmarkKey | reader.js:298 | the key is the book id, `_`, then the page, with its last `_` right after the id |
| Reading.BookmarkKeyInjective | reader.js:298 | different (book, page) pairs get different keys |
| Reading.Toggle | reader.js:300-316 | the key is inserted if absent and deleted if present; every other key is untouched |
| Reading.ToggleTwice | reader.js:296-317 | toggling twice restores the map (with the second bookmark's data when the key was present) |
| Reading.Reader.ToggleBookmark | reader.js:296-317 | the map is toggled at this book's current page key |
| Reading.MatchesFromExact | reader.js:339-361 | the position list holds exactly the occurrences of the query from the start position, overlapping ones included |
| Reading.MatchesFromIncreasing | reader.js:339-361 | the positions are strictly increasing |
| Reading.SearchFromExact | reader.js:337-362 | a (page, position) is reported exactly when the lower-cased query occurs there in the lower-cased page |
| Reading.SearchFromOrdered | reader.js:337-362 | results come in page order, then position order |
| Reading.ContextShowsMatch | reader.js:343-345 | the context is at most |q|+100 long and shows the match |
| Reading.Reader.PerformSearch | reader.js:330-366 | a blank query does nothing; otherwise all hits over all pages |
| Reading.SearchPage | reader.js:338-361 | the while loop yields one hit per occurrence in the page |
| Reading.Displayed | reader.js:374 | the first 20 results, or all when there are fewer |
| AdvancedReading.LinesPerChapter | advanced-reader.js:83 | between 100 and 500, and exactly a twentieth of the line count when that is in range |
| AdvancedReading.ChaptersFromShape | advanced-reader.js:85-93 | chapter k covers k·L to min(k·L+L−1, n−1), is titled "Глава k+1", and there are ⌈n/L⌉ chapters |
| AdvancedReading.ChaptersCoverLines | advanced-reader.js:85-93 | the chapters are contiguous, start at line 0, end at the last line and number ⌈n/L⌉ |
| AdvancedReading.ChaptersRejoin | advanced-reader.js:75-96 | joining the chapter texts with newlines gives back the book text |
| AdvancedReading.GenerateChapters | advanced-reader.js:75-96 | the stepped loop builds the chapters of the content (none for missing or empty content) |
| AdvancedReading.SavedChapterAsWritten | advanced-reader.js:98-101 | (as written) the saved chapter number is used as is |
| AdvancedReading.StaleSavedChapter | advanced-reader.js:98-101 | (as written) a saved chapter can lie past the last chapter |
| AdvancedReading.RestoredChapter | advanced-reader.js:98-101 | (corrected) the restored chapter lies in range, and a saved chapter in range is kept |
| AdvancedReading.AdvancedReader.constructor | advanced-reader.js:4-22 | no chapters, chapter 0, the stored bookmarks |
| AdvancedReading.AdvancedReader.LoadChapters | advanced-reader.js:64-101 | stored chapters or generated ones; the saved chapter is taken unclamped, so the current chapter is one of the chapters exactly when the saved one is, and then it agrees with the clamped `RestoredChapter` |
| AdvancedReading.AdvancedReader.PrevChapter | advanced-reader.js:330-335 | one chapter back only from above 0; otherwise unchanged |
| AdvancedReading.AdvancedReader.NextChapter | advanced-reader.js:337-342 | one chapter on only below the last; otherwise unchanged |
| AdvancedReading.AdvancedReader.GotoChapter | advanced-reader.js:344-349 | an index in range is taken; any other index changes nothing |
| AdvancedReading.AdvancedReader.Progress | advanced-reader.js:318-328 | in 0..100 and 100 in the last chapter |
| AdvancedReading.FindBookmark | advanced-reader.js:353-355 | findIndex: the first bookmark for the book and chapter, or −1 when none |
| AdvancedReading.AdvancedReader.NewBookmark | advanced-reader.js:360-368 | the new bookmark is for this book and the current chapter |
| AdvancedReading.ToggleInEffect | advanced-reader.js:351-373 | one bookmark per (book, chapter) is kept; the current chapter's bookmark is removed if present and appended if absent; all others stay |
| AdvancedReading.AdvancedReader.ToggleBookmark | advanced-reader.js:351-378 | an existing bookmark for the current chapter is removed in every state; otherwise one is appended when the current chapter is one of the chapters, and the call fails with the list unchanged when it is not (an empty book or a stale saved chapter, where `chapter.title` throws); one bookmark per chapter is preserved |
| AdvancedReading.SearchToc | advanced-reader.js:606-615 | a blank query lists every chapter; otherwise only matching chapters |
| AdvancedReading.SearchTocComplete | advanced-reader.js:607-615 | every matching chapter is listed |
| AdvancedReading.PreviewWindow | advanced-reader.js:655-657 | the window holds the match; it starts 40 characters before the match, or at 0 when the match is nearer the start, and ends 40 characters after it, or at the end of the text when that is nearer |
| AdvancedReading.SearchPreview | advanced-reader.js:651-663 | no match gives the first 100 characters and `...`; otherwise the window, with `...` in front exactly when it starts after 0 and behind exactly when it ends before the end |
| AdvancedReading.PreviewShowsMatch | advanced-reader.js:655-662 | the preview window contains the match |
| BookText.FileFormatIsExtension | library.js:320-323 | the lower-cased text after the last `.`, or the whole name without a dot |
| BookText.FileFormatWithoutDot | file-upload.js:241-244 | a name without a dot gives the whole lower-cased name |
| BookText.StripExtensionCases | library.js:340 | the name loses its last extension exactly when it has one that contains no `/` |
| BookText.FilenameTitle | library.js:340 | the stripped name, same length, with every `-` and `_` turned into a space and every other character kept |
| BookText.TitleOfCases | library.js:326-341 | the cleaned first of the first 10 lines of trimmed length 11..99 that cleans to more than 5 characters; otherwise the file name title |
| BookText.TitleLineLength | library.js:330-333 | a title taken from the text has 6 to 99 characters |
| BookText.ExtractTitle | file-upload.js:246-261 | the early-return loop computes that title |
| BookText.AuthorFieldBetweenColons | library.js:350 | the author is the trimmed text between the first and second `:` |
| BookText.AuthorOfCases | library.js:344-354 | the field of the first of 20 lines containing `автор:`/`author:`, or "Неизвестный автор" |
| BookText.ExtractAuthor | file-upload.js:263-273 | the early-return loop computes that author |
| BookText.TruncateText | library.js:461-465 | an empty text gives ''; text within the limit is unchanged; longer text is cut with `...` |
| BookText.TruncateTextPrefix | script.js:498-502 | the result starts with the text's first maxLength characters and is at most 3 longer |
| BookText.CoverTextCases | library.js:449-458 | one character: exactly the upper-cased first character of the title when that is a Latin or Russian capital, and '書' in every other case (no title, empty title, any other first character); a lower-case first letter comes back as its capital |
| Library.WithId | library.js:102-105 | a book with an id is unchanged; otherwise it gets the fresh id and addedAt, and other fields are kept |
| Library.WithIdStable | library.js:102-105 | saving again never changes the id |
| Library.ClampProgress | library.js:178 | progress clamped to [0, 100]; in-range values kept |
| Library.WithProgress | library.js:178-179 | progress clamped, lastRead set, everything else kept |
| Library.StoredProgressInRange | library.js:175-181 | the stored progress is the clamped value and lies in 0..100 |
| Library.LibraryManager.constructor | library.js:3-8 | an empty store |
| Library.LibraryManager.SaveBook | library.js:91-123 | the saved book is the book with an id ensured, stored under that id |
| Library.LibraryManager.UpdateProgress | library.js:175-182 | an unknown book is a no-op; otherwise the stored book gets the clamped progress |
| Library.ModeOf | library.js:488-489 | no select element sorts by date, newest first |
| Library.LexCompareZero | library.js:501 | the comparison is 0 exactly for equal titles |
| Library.LexCompareTrans | library.js:501 | the title comparison is transitive |
| Library.LeTotal | library.js:494-509 | any two books are ordered one way or the other in every mode |
| Library.LeTrans | library.js:494-509 | the order of every mode is transitive |
| Library.SortBooks | library.js:487-510 | the result is a permutation of the input |
| Library.SortBooksSorted | library.js:487-510 | the result is sorted by the selected key |
| Library.SortUnorderedKeepsOrder | library.js:506-507 | an unknown mode keeps the input order |
| Library.SearchBooks | library.js:513-517 | a blank query shows all books |
| Library.SearchBooksExact | library.js:519-530 | otherwise, in order, exactly the books whose title, author or format contains the query case-insensitively |
| Library.UpdateStats | library.js:534-563 | nothing for an empty library; otherwise the book count and the total size |
| Library.SumBounds | library.js:552-561 | a sum lies between count·min and count·max |
| Library.AvgProgressInRange | library.js:557-558 | with progresses in 0..100 the average progress is in 0..100 |
| Library.ReadingHoursNonNegative | library.js:552-553 | the reading time is never negative, and 0 below 7500 characters |
| Library.Project | library.js:769-777 | the export copy keeps exactly the listed fields the book has, unchanged |
| Library.ProjectIdempotent | library.js:769-777 | projecting twice is projecting once |
| Library.ExportLibrary | library.js:765-779 | version `1.0`, the date, and one projected record per book in order |
| Library.ExportDropsContent | library.js:777 | no exported record holds the content |
| FileUpload.ValidateFilesExact | file-upload.js:131-148 | exactly the files of at most 50 MB with format txt, docx or pdf, in order |
| FileUpload.UploadMetadata | file-upload.js:95-100 | the metadata has the file name, the file size and the page count (0 when none), and keeps the reader's other fields |
| FileUpload.SucceededAppend | file-upload.js:77-120 | one more file adds one success exactly when it reads and the library is there, and adds its size |
| FileUpload.MakeBook | file-upload.js:85-101 | the book object: fresh id, extracted title and author, content, format, size, progress 0, characters = content length |
| FileUpload.TryFile | file-upload.js:78-116 | a book is saved exactly when the file reads and the library manager is there, and it is the book built from what was read, with the fresh id |
| FileUpload.ProcessFiles | file-upload.js:67-130 | no accepted file means nothing happens; otherwise the run's report over the accepted files, as for UploadAll: the counts, the bar, the total size, the message, and the saved books, which are, in order, the book built from each accepted file that reads, with the id for its position |
| FileUpload.UploadAll | file-upload.js:71-123 | each file counts once as processed or as an error; the progress after file k is round(k/total·100); the sizes add up; the saved books are exactly, in file order, the book built from each file that reads (its content, title, author, format, size, metadata and id `freshId(k)`), one per success, each unread with its characters counted; the completion message |
| FileUpload.UploadProgressEnds | file-upload.js:349 | the progress stays in 0..100 and is 100 after the last file |
| FileUpload.StatusTextCases | file-upload.js:329-336 | a non-empty label; the error message when one is given; fixed labels otherwise |
| FileUpload.StatusIconPresent | file-upload.js:338-345 | an icon exactly for success, error and processing |
| FileUpload.CompletionMessageCases | file-upload.js:374-388 | after a full run there is always a message: "all succeeded" exactly with no errors, "all failed" exactly with no successes |
| Annotations.ContextAround | annotations.js:233-241 | the context is no longer than the node's text |
| Annotations.ContextContainsRange | annotations.js:237-240 | the context is text[max(0,start−50) .. min(len,end+50)), contains the selection and is at most 100 longer |
| Annotations.NewAnnotation | annotations.js:163-172 | the new annotation holds the selection's text, its offset and length, the book, chapter and context |
| Annotations.WrapParts | annotations.js:308-311 | before + selected + after is the node's text, and the parts are the slices when the range fits |
| Annotations.ChapterAnnotationsExact | annotations.js:279-281 | exactly the annotations of this book and chapter |
| Annotations.ExportListExact | annotations.js:401 | exactly this book's annotations |
| Annotations.SearchAnnotationsExact | annotations.js:432-438 | in order, this book's annotations whose text or non-empty note contains the query case-insensitively |
| Annotations.WithoutFirstEffect | advanced-reader.js:760-766 | an unknown id is a no-op; otherwise exactly the first annotation with the id is removed, and the rest keep their order |
| Annotations.AnnotationManager.constructor | annotations.js:4-22 | the saved list, or an empty one, with no selection |
| Annotations.AnnotationManager.HandleTextSelection | annotations.js:90-110 | a selection is kept exactly when its trimmed text has 3 to 500 characters, and it is kept trimmed |
| Annotations.AnnotationManager.HideAnnotationToolbar | annotations.js:133-139 | the selection is cleared |
| Annotations.AnnotationManager.CreateHighlight | annotations.js:160-182 | without a selection nothing changes; otherwise exactly one highlight is appended |
| Annotations.AnnotationManager.CreateNote | annotations.js:184-209 | without a selection or with an empty note nothing changes; otherwise exactly one note is appended |
| Annotations.AnnotationManager.CreateUnderline | annotations.js:211-231 | without a selection nothing changes; otherwise exactly one underline is appended |
| Annotations.AnnotationManager.HandleAnnotationAction | annotations.js:141-158 | without a selection or with an unknown action nothing is added; "highlight" appends the highlight of the selection, always #ffeb3b; "note" appends the note with the entered text, or nothing for a cancelled or empty prompt; "underline" appends the underline; the old annotations stay in front and the selection is cleared |
| Annotations.AnnotationManager.SetHighlightColor | annotations.js:388-397 | the colour is stored and nothing else changes |
| Annotations.AnnotationManager.DeleteAnnotation | advanced-reader.js:760-766 | the list loses its first annotation with the id |
| Slider.CardsPerView | script.js:135-143 | 1 to 3 cards |
| Slider.CardsPerViewMonotone | script.js:135-143 | a wider window never shows fewer cards: 1 up to 768, 3 above 992 |
| Slider.DotsMatchPositions | script.js:125-149 | there is at least one dot, and exactly one per position the slider can take |
| Slider.ReviewsSlider.constructor | script.js:118-120 | index 0 and the cards for the width |
| Slider.ReviewsSlider.UpdateSlider | script.js:146-170 | the index is clamped into [0, maxIndex]; prev is disabled at 0 and next at maxIndex; both exactly when all cards fit |
| Slider.ReviewsSlider.GoToSlide | script.js:173-177 | the index becomes the requested one clamped into [0, maxIndex] |
| Slider.ReviewsSlider.Prev | script.js:180-185 | one back only above 0 |
| Slider.ReviewsSlider.Next | script.js:187-193 | one on only below maxIndex |
| Slider.ReviewsSlider.HandleResize | script.js:196-212 | the card count follows the width and the index is clamped into the new range |
| Slider.Reverse | script.js:382 | the reversed sequence |
| Slider.BooksPreviewNewestFirst | script.js:382 | at most the last three books, the last stored first |

## Left out

- Storage: IndexedDB, localStorage, sessionStorage and FileReader are out.
  Stores are maps and sequences. `loadBooks`, `loadSessions`,
  `saveSessions`, `saveImportedBook` and `saveBookToLibrary` are out.
  `loadShareSession` (advanced-qr-share.js:593-597) always resolves to null.
  The import page's loaded session is a parameter of `ShareSessions.ProcessImport`.
- `updateDownloadCount`, called at advanced-qr-share.js:582, is defined in none
  of the files. The model names the counted session and does not change a count.
- DOM, CSS, animation, notifications, modals and pixel offsets are out. So are
  the XPath code (annotations.js:251-275, 298-305) and the regex highlight
  markup (reader.js:348-351, advanced-reader.js:665-670). Only match positions
  are modelled.
- `Annotations.AnnotationManager`: a selection range has one container node.
  Ranges across several nodes are out. The chapter is a parameter, as the
  reader's `currentChapter` is.
- External libraries are out: pako, AES-GCM, key generation, the QR renderer,
  mammoth, pdf.js, clipboard and camera. Each is a function parameter or left
  out. `readFile` is the `read` parameter of `FileUpload.ProcessFiles`.
- `JSON.stringify` and `JSON.parse` are parameters. So the envelope's JSON
  text, and the question of whether parse inverts stringify, lie outside the
  model.
- There is no end-to-end share round trip. `prepareShareData` computes the
  compressed and encrypted string and then drops it; the envelope carries the
  plain book. Only the round trips of the individual transforms are proved.
- Floating point and locale are out: `formatFileSize`, `formatDate`,
  `toLocaleString` and the txt export of annotations. Percentages are integer
  rounding of a rational (half up, as Math.round for non-negative values).
  `NaN` from `parseInt` on a non-number is an absent value.
- Case mapping covers Latin and Cyrillic letters only, not full Unicode.
- `Library.SortBooks`: sorting uses a code-point comparison in place of
  `localeCompare`. The model is a stable insertion sort, and stability is not
  stated as a property.
- Ids (`Date.now()` plus `Math.random()`) and the clock are fresh values passed
  in. Two ids that collide are not modelled; deletion, revocation and
  bookmark removal touch the first match only. `FileUpload.ProcessFiles`
  takes one clock value for the whole run.
- `Library.LibraryManager.SaveBook` returns the updated book. The source
  mutates the caller's object; that aliasing is out.
- Async ordering, timers and event-listener registration are out.
- hotfixes.js is out. It is colour patching and monkey-patching of the QR
  renderer.
- `Reading.PageProgressBounds`: the percentage is at least 1 only for books of
  up to 200 pages. Page 1 of a 300-page book shows 0 % (`Reading.FirstPageOfLongBook`).
- The colour stored by `setHighlightColor` is never read: toolbar highlights
  always use #ffeb3b. The model keeps the field and proves the constant colour.
- `ShareSessions.AdvancedQrShare.CreateShareSession` and
  `ShareSessions.AdvancedQrShare.GenerateNewSession` take encryptBookData's
  result as a parameter. In the shipped file `init` (advanced-qr-share.js:15)
  calls `generateEncryptionKey`, which no file defines, so `initCrypto` never
  runs and the key stays null. encryptBookData then always throws. The `None`
  case is therefore the one that happens: no session is ever saved by these
  methods. The model covers the `Some` case too and does not fix the parameter.
- `ShareSessions.ProcessImport` takes the decryption as a parameter. The import
  page builds a fresh `AdvancedQRShare` whose `initCrypto` makes a new random
  key (advanced-qr-share.js:574-576), so a sharer's data could never
  authenticate there. The model does not tie `decrypt` to the sharer's key.
- `Reading.Reader.PerformSearch` returns every hit. The source builds
  `new RegExp(query, 'gi')` from the raw query for each hit
  (reader.js:348-351). A query that is not a valid regular expression, such as
  `(` or `c++`, throws a SyntaxError there when it occurs in some page, and no
  result is shown. Regular-expression syntax is not modelled, so the model does
  not capture that failure.
- Text lengths and offsets count code points. JavaScript's `length`,
  `substring`, `indexOf` and `trim().length` count UTF-16 units, and the two
  differ for characters outside the Basic Multilingual Plane (an emoji counts
  2). Affected: `BookText.TruncateText`, the 3 to 500 selection gate in
  `Annotations`, the title-line length check in `BookText`, the character
  count of an uploaded book, and the search offsets and context windows.
- The completion notification's "no message" case needs
  processed = errors = total = 0. That cannot happen, because an empty valid
  list returns before the loop; the lemma about the message covers full runs.

## Findings

| source | as written | input that shows it | evidently intended | confidence | as-written member | corrected member |
|---|---|---|---|---|---|---|
| advanced-qr-share.js:549-591 | the import page checks password, quota and expiry but never `isActive` | a session revoked at time 1, expiring in 24 h, 0 of 10 downloads, imported at time 2 | a revoked or swept session cannot be imported | not executed | ShareSessions.RevokedSessionStillImports | ShareSessions.SweptSessionRefused |
| qr-share.js:323-329 | the header is spread before the book, so a book's own `version` wins | a book record that carries its own `version` field, e.g. `version: '2.0'` | the envelope always says version `1.0` | not executed | QrShare.VersionedBookShareRefused | QrShare.HeaderLastVersion |
| advanced-reader.js:98-101 | the saved chapter number is used unclamped | saved chapter 7 for a book that now has 1 chapter | the chapter is clamped into range, as reader.js:104-111 does for pages | not executed | AdvancedReading.StaleSavedChapter | AdvancedReading.RestoredChapter |
