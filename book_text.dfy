/**
 * What the library and the upload page read off a file and its text: the
 * format from the file name, a title and an author from the first lines of
 * the text, and the two display helpers shared with the home page
 * (truncateText and getCoverText).
 */
module BookText {
  import opened Text
  import opened Seqs

  // ---------------------------------------------------------------------------
  // getFileFormat
  // ---------------------------------------------------------------------------

  /** getFileFormat: the lower-cased last piece of the name split on '.'. */
  function FileFormat(filename: string): (r: string)
  {
    Lower(Last(Split(filename, '.')))
  }

  /** A character that is not a letter is lower-cased only from itself. */
  lemma LowerCharKeepsOthers(c: char, d: char)
    requires !IsAsciiLower(d) && !IsCyrillicLower(d) && !IsCyrillicExtLower(d)
    requires !IsAsciiUpper(d) && !IsCyrillicUpper(d) && !IsCyrillicExtUpper(d)
    ensures LowerChar(c) == d <==> c == d
  {
  }

  /** The format is the lower-cased text after the last dot of the name, or the
      whole lower-cased name when it has no dot; it holds no dot itself. */
  lemma FileFormatIsExtension(filename: string)
    ensures var r := FileFormat(filename);
      && |r| <= |filename|
      && r == Lower(filename[|filename| - |r|..])
      && '.' !in filename[|filename| - |r|..]
      && (|r| == |filename| || filename[|filename| - |r| - 1] == '.')
      && '.' !in r
  {
    var pieces := Split(filename, '.');
    var p := Last(pieces);
    var r := FileFormat(filename);
    SplitLast(filename, '.');
    assert '.' !in p by {
      SplitPiecesFree(filename, '.');
      assert p == pieces[|pieces| - 1];
    }
    forall i | 0 <= i < |r| ensures r[i] != '.' {
      assert p[i] in p;
      LowerCharKeepsOthers(p[i], '.');
    }
  }

  /** A name without a dot is its own format, lower-cased. */
  lemma FileFormatWithoutDot(filename: string)
    requires '.' !in filename
    ensures FileFormat(filename) == Lower(filename)
  {
  }

  // ---------------------------------------------------------------------------
  // extractTitle
  // ---------------------------------------------------------------------------

  /** The characters of the class [#*_\-=] that a title line is cleaned of. */
  const TitleMarks: set<char> := {'#', '*', '_', '-', '='}

  /** The trimmed line with every title mark removed, trimmed again. */
  function CleanLine(line: string): string
  {
    Trim(RemoveChars(Trim(line), TitleMarks))
  }

  /** A line taken as the title: trimmed, it is longer than 10 and shorter than
      100 characters, and cleaned it is still longer than 5. */
  predicate IsTitleLine(line: string) {
    10 < |Trim(line)| < 100 && |CleanLine(line)| > 5
  }

  /** The first `n` lines of the text (content.split('\n').slice(0, n)). */
  function FirstLines(content: string, n: nat): (r: seq<string>)
    ensures |r| <= n
  {
    var lines := Split(content, '\n');
    lines[..Min(n, |lines|)]
  }

  /** filename.replace(/\.[^/.]+$/, ''): the name without its last extension,
      an extension being a dot followed by at least one character and by no
      dot or slash up to the end. */
  function StripExtension(filename: string): (r: string)
  {
    match LastIndex(filename, '.')
    case None => filename
    case Some(i) =>
      if i + 1 < |filename| && '/' !in filename[i + 1..] then filename[..i] else filename
  }

  lemma StripExtensionCases(filename: string)
    ensures var r := StripExtension(filename);
      && |r| <= |filename| && r == filename[..|r|]
      && (r != filename <==>
            (|r| + 1 < |filename| && filename[|r|] == '.'
             && '.' !in filename[|r| + 1..] && '/' !in filename[|r| + 1..]))
  {
    var r := StripExtension(filename);
    match LastIndex(filename, '.')
    case None =>
    case Some(i) =>
      if r == filename {
        if |r| + 1 < |filename| {
          assert false;
        }
      } else {
        assert |r| == i;
      }
  }

  /** The title made from the file name: extension stripped, '-' and '_' turned
      into spaces. */
  function FilenameTitle(filename: string): (r: string)
    ensures |r| == |StripExtension(filename)|
    ensures forall j :: 0 <= j < |r| ==> r[j] != '-' && r[j] != '_'
    ensures forall j :: 0 <= j < |r| ==>
      r[j] == (if StripExtension(filename)[j] in {'-', '_'} then ' ' else StripExtension(filename)[j])
  {
    ReplaceChars(StripExtension(filename), {'-', '_'}, ' ')
  }

  /** extractTitle: the cleaned first title line among the first 10 lines,
      otherwise the title made from the file name. */
  function TitleOf(filename: string, content: string): string
  {
    var lines := FirstLines(content, 10);
    match FirstWhere(lines, IsTitleLine)
    case Some(i) => CleanLine(lines[i])
    case None => FilenameTitle(filename)
  }

  /** The title comes from the first line of the first ten that qualifies, and
      is then between 6 and 99 characters long; when no line qualifies it comes
      from the file name. */
  lemma TitleOfCases(filename: string, content: string)
    ensures var lines := FirstLines(content, 10); var r := TitleOf(filename, content);
      || (exists i :: 0 <= i < |lines| && IsTitleLine(lines[i])
            && (forall j :: 0 <= j < i ==> !IsTitleLine(lines[j]))
            && r == CleanLine(lines[i]) && 5 < |r| < 100)
      || ((forall j :: 0 <= j < |lines| ==> !IsTitleLine(lines[j])) && r == FilenameTitle(filename))
  {
    var lines := FirstLines(content, 10);
    var found := FirstWhere(lines, IsTitleLine);
    if found.Some? {
      TitleLineLength(lines[found.value]);
    }
  }

  /** A title line is still 6 to 99 characters long once cleaned. */
  lemma TitleLineLength(line: string)
    requires IsTitleLine(line)
    ensures 5 < |CleanLine(line)| < 100
  {
    var t := Trim(line);
    var u := RemoveChars(t, TitleMarks);
    assert |Trim(u)| <= |u| <= |t|;
  }

  /** extractTitle, as the loop with an early return that the source runs. */
  method ExtractTitle(filename: string, content: string) returns (title: string)
    ensures title == TitleOf(filename, content)
  {
    var lines := FirstLines(content, 10);
    var found := FindFirst(lines, IsTitleLine);
    match found
    case Some(i) => title := CleanLine(lines[i]);
    case None => title := FilenameTitle(filename);
  }

  // ---------------------------------------------------------------------------
  // extractAuthor
  // ---------------------------------------------------------------------------

  const UnknownAuthor := "Неизвестный автор"

  /** The line, lower-cased, contains "автор:" or "author:". */
  predicate IsAuthorLine(line: string) {
    Includes(Lower(line), "автор:") || Includes(Lower(line), "author:")
  }

  /** An author line holds a colon, so splitting it on ':' gives a second piece. */
  lemma AuthorLineHasColon(line: string)
    requires IsAuthorLine(line)
    ensures ':' in line
  {
    var low := Lower(line);
    var q := if Includes(low, "автор:") then "автор:" else "author:";
    IncludesIff(low, q);
    var k :| 0 <= k && OccursAt(low, q, k);
    var at := k + |q| - 1;
    assert low[at] == low[k..k + |q|][|q| - 1] == ':';
    LowerCharKeepsOthers(line[at], ':');
    assert line[at] in line;
  }

  /** line.split(':')[1].trim() for an author line. */
  function AuthorField(line: string): string
    requires IsAuthorLine(line)
  {
    AuthorLineHasColon(line);
    SplitSecond(line, ':');
    Trim(Split(line, ':')[1])
  }

  /** extractAuthor: the author field of the first author line among the first
      20 lines, otherwise "Неизвестный автор". */
  function AuthorOf(content: string): string
  {
    var lines := FirstLines(content, 20);
    match FirstWhere(lines, IsAuthorLine)
    case Some(i) => AuthorField(lines[i])
    case None => UnknownAuthor
  }

  /** The author field is the trimmed text between the first colon of the line
      and the next colon, or the end of the line. */
  lemma AuthorFieldBetweenColons(line: string)
    requires IsAuthorLine(line)
    ensures ':' in line
    ensures var rest := line[FirstIndex(line, ':') + 1..]; var n := |Split(rest, ':')[0]|;
      && n <= |rest| && ':' !in rest[..n] && (n == |rest| || rest[n] == ':')
      && AuthorField(line) == Trim(rest[..n])
  {
    AuthorLineHasColon(line);
    var rest := line[FirstIndex(line, ':') + 1..];
    SplitSecond(line, ':');
    SplitFirst(rest, ':');
  }

  /** The author comes from the first of the first twenty lines that names one,
      otherwise it is "Неизвестный автор". */
  lemma AuthorOfCases(content: string)
    ensures var lines := FirstLines(content, 20); var r := AuthorOf(content);
      || (exists i :: 0 <= i < |lines| && IsAuthorLine(lines[i])
            && (forall j :: 0 <= j < i ==> !IsAuthorLine(lines[j]))
            && r == AuthorField(lines[i]))
      || ((forall j :: 0 <= j < |lines| ==> !IsAuthorLine(lines[j])) && r == UnknownAuthor)
  {
  }

  /** extractAuthor, as the loop with an early return that the source runs. */
  method ExtractAuthor(content: string) returns (author: string)
    ensures author == AuthorOf(content)
  {
    var lines := FirstLines(content, 20);
    var found := FindFirst(lines, IsAuthorLine);
    match found
    case Some(i) => author := AuthorField(lines[i]);
    case None => author := UnknownAuthor;
  }

  // ---------------------------------------------------------------------------
  // truncateText, getCoverText
  // ---------------------------------------------------------------------------

  /** truncateText: '' for a missing or empty text, the text itself when it is
      at most `maxLength` long, otherwise its first `maxLength` characters
      (none when `maxLength` is negative) followed by "...". */
  function TruncateText(text: Option<string>, maxLength: int): (r: string)
    ensures text.None? ==> r == ""
    ensures text.Some? && |text.value| <= maxLength ==> r == text.value
    ensures text.Some? && text.value != [] && |text.value| > maxLength ==>
      r == text.value[..Max(maxLength, 0)] + "..."
  {
    if text.None? || text.value == [] then ""
    else if |text.value| <= maxLength then text.value
    else text.value[..Max(maxLength, 0)] + "..."
  }

  /** For a non-negative limit the result starts with the text's first
      characters, and is at most three characters longer than the limit. */
  lemma TruncateTextPrefix(text: string, maxLength: nat)
    ensures var r := TruncateText(Some(text), maxLength);
      && |r| <= maxLength + 3
      && r[..Min(|text|, maxLength)] == text[..Min(|text|, maxLength)]
      && (|text| <= maxLength ==> r == text)
      && (|text| > maxLength ==> |r| == maxLength + 3 && r[maxLength..] == "...")
  {
  }

  /** The letters the cover shows: [A-ZА-ЯЁ]. */
  predicate IsCoverLetter(c: char) {
    IsAsciiUpper(c) || IsCyrillicUpper(c) || c == 'Ё'
  }

  const DefaultCover := '書'

  /** getCoverText: the upper-cased first character of the title when it is a
      Latin or Russian capital, otherwise '書'. */
  function CoverText(title: Option<string>): (r: string)
  {
    if title.Some? && title.value != [] && IsCoverLetter(UpperChar(title.value[0]))
    then [UpperChar(title.value[0])]
    else [DefaultCover]
  }

  /** The cover shows one character: a capital letter that is the first letter
      of the title, or '書' when the title is missing or does not start with a
      Latin or Russian letter. */
  lemma CoverTextCases(title: Option<string>)
    ensures var r := CoverText(title);
      && |r| == 1
      && (IsCoverLetter(r[0]) || r[0] == DefaultCover)
      && (IsCoverLetter(r[0]) ==> title.Some? && title.value != [] && r[0] == UpperChar(title.value[0]))
      && ((title.Some? && title.value != [] && (IsAsciiLower(title.value[0]) || IsCyrillicLower(title.value[0])))
            ==> r[0] == UpperChar(title.value[0]) && LowerChar(r[0]) == title.value[0])
      && ((title.Some? && title.value != [] && IsCoverLetter(UpperChar(title.value[0])))
            ==> r == [UpperChar(title.value[0])])
      && ((title.None? || title.value == [] || !IsCoverLetter(UpperChar(title.value[0])))
            ==> r == [DefaultCover])
  {
  }
}
