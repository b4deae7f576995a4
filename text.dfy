/**
 * String helpers with the semantics of the JavaScript built-ins that the reader
 * calls: trim, toLowerCase/toUpperCase (restricted to Latin and Cyrillic letters),
 * indexOf/includes, split on a character or on runs of white space, substring,
 * parseInt and the decimal rendering of a number.
 */
module Text {

  datatype Option<+T> = None | Some(value: T)

  // ---------------------------------------------------------------------------
  // Characters
  // ---------------------------------------------------------------------------

  /** The characters matched by `\s` in a JavaScript regular expression, which are
      also the characters that String.prototype.trim removes. */
  predicate IsSpace(c: char) {
    c in WhiteSpace
  }

  const WhiteSpace: set<char> := {
    ' ', '\t', '\n', '\r', '\U{B}', '\U{C}', '\U{A0}', '\U{1680}',
    '\U{2000}', '\U{2001}', '\U{2002}', '\U{2003}', '\U{2004}', '\U{2005}',
    '\U{2006}', '\U{2007}', '\U{2008}', '\U{2009}', '\U{200A}',
    '\U{2028}', '\U{2029}', '\U{202F}', '\U{205F}', '\U{3000}', '\U{FEFF}'
  }

  predicate IsAsciiUpper(c: char) { 'A' <= c <= 'Z' }
  predicate IsAsciiLower(c: char) { 'a' <= c <= 'z' }
  /** А..Я (U+0410..U+042F) and а..я (U+0430..U+044F). */
  predicate IsCyrillicUpper(c: char) { 'А' <= c <= 'Я' }
  predicate IsCyrillicLower(c: char) { 'а' <= c <= 'я' }
  /** Ѐ..Џ (U+0400..U+040F, holds Ё) and ѐ..џ (U+0450..U+045F, holds ё). */
  predicate IsCyrillicExtUpper(c: char) { '\U{400}' <= c <= '\U{40F}' }
  predicate IsCyrillicExtLower(c: char) { '\U{450}' <= c <= '\U{45F}' }

  /** Lower-case mapping of one character, for the Latin and Cyrillic letters. */
  function LowerChar(c: char): (r: char)
    ensures IsAsciiUpper(c) ==> IsAsciiLower(r)
    ensures !IsAsciiUpper(c) && !IsCyrillicUpper(c) && !IsCyrillicExtUpper(c) ==> r == c
  {
    if IsAsciiUpper(c) then (c as int + 32) as char
    else if IsCyrillicUpper(c) then (c as int + 32) as char
    else if IsCyrillicExtUpper(c) then (c as int + 80) as char
    else c
  }

  /** Upper-case mapping of one character, for the Latin and Cyrillic letters. */
  function UpperChar(c: char): (r: char)
    ensures IsAsciiLower(c) ==> IsAsciiUpper(r)
    ensures IsCyrillicLower(c) ==> IsCyrillicUpper(r)
    ensures !IsAsciiLower(c) && !IsCyrillicLower(c) && !IsCyrillicExtLower(c) ==> r == c
  {
    if IsAsciiLower(c) then (c as int - 32) as char
    else if IsCyrillicLower(c) then (c as int - 32) as char
    else if IsCyrillicExtLower(c) then (c as int - 80) as char
    else c
  }

  lemma LowerUpperInverse(c: char)
    requires IsAsciiUpper(c) || IsCyrillicUpper(c) || IsCyrillicExtUpper(c)
    ensures UpperChar(LowerChar(c)) == c
  {
  }

  /** String.prototype.toLowerCase, character by character. */
  function Lower(s: string): (r: string)
    ensures |r| == |s|
    ensures forall i :: 0 <= i < |s| ==> r[i] == LowerChar(s[i])
  {
    seq(|s|, i requires 0 <= i < |s| => LowerChar(s[i]))
  }

  lemma LowerCharIdempotent(c: char)
    ensures LowerChar(LowerChar(c)) == LowerChar(c)
  {
  }

  lemma LowerIdempotent(s: string)
    ensures Lower(Lower(s)) == Lower(s)
  {
    forall i | 0 <= i < |s| ensures Lower(Lower(s))[i] == Lower(s)[i] {
      LowerCharIdempotent(s[i]);
    }
  }

  // ---------------------------------------------------------------------------
  // trim
  // ---------------------------------------------------------------------------

  function TrimStart(s: string): (r: string)
    ensures |r| <= |s| && r == s[|s| - |r|..]
    ensures forall i :: 0 <= i < |s| - |r| ==> IsSpace(s[i])
    ensures r == [] || !IsSpace(r[0])
  {
    if s == [] || !IsSpace(s[0]) then s else TrimStart(s[1..])
  }

  function TrimEnd(s: string): (r: string)
    ensures |r| <= |s| && r == s[..|r|]
    ensures forall i :: |r| <= i < |s| ==> IsSpace(s[i])
    ensures r == [] || !IsSpace(r[|r| - 1])
  {
    if s == [] || !IsSpace(s[|s| - 1]) then s else TrimEnd(s[..|s| - 1])
  }

  /** String.prototype.trim: the input without its leading and trailing white space. */
  function Trim(s: string): (r: string)
  {
    TrimEnd(TrimStart(s))
  }

  /** The trimmed string is the slice of the input between two runs of white
      space, and it neither starts nor ends with white space. */
  lemma TrimSlice(s: string)
    ensures exists i, j :: IsTrimWindow(s, i, j) && Trim(s) == s[i..j]
    ensures Trim(s) == [] || (!IsSpace(Trim(s)[0]) && !IsSpace(Trim(s)[|Trim(s)| - 1]))
  {
    var i, j := TrimWindow(s);
    var t := TrimStart(s);
    if TrimEnd(t) != [] {
      assert TrimEnd(t)[0] == t[0];
    }
  }

  lemma TrimWindow(s: string) returns (i: nat, j: nat)
    ensures IsTrimWindow(s, i, j) && Trim(s) == s[i..j]
  {
    var t := TrimStart(s);
    var e := TrimEnd(t);
    i := |s| - |t|;
    j := i + |e|;
    assert t == s[i..];
    forall k | j <= k < |s| ensures IsSpace(s[k]) {
      assert s[k] == t[k - i];
    }
  }

  /** s[i..j] is preceded and followed only by white space. */
  predicate IsTrimWindow(s: string, i: int, j: int) {
    && 0 <= i <= j <= |s|
    && (forall k :: 0 <= k < i ==> IsSpace(s[k]))
    && (forall k :: j <= k < |s| ==> IsSpace(s[k]))
  }

  /** A string all of whose characters are white space trims to the empty string. */
  lemma TrimEmptyIffBlank(s: string)
    ensures Trim(s) == [] <==> forall k :: 0 <= k < |s| ==> IsSpace(s[k])
  {
    TrimSlice(s);
    if Trim(s) != [] {
      var i, j :| IsTrimWindow(s, i, j) && Trim(s) == s[i..j];
      assert s[i] == Trim(s)[0];
    }
  }

  // ---------------------------------------------------------------------------
  // indexOf / includes
  // ---------------------------------------------------------------------------

  /** `q` occurs in `s` at position `i`. */
  predicate OccursAt(s: string, q: string, i: int) {
    0 <= i && i + |q| <= |s| && s[i..i + |q|] == q
  }

  function Find(s: string, q: string, i: nat): (r: int)
    requires i <= |s|
    ensures r == -1 || (i <= r && OccursAt(s, q, r))
    ensures r == -1 ==> forall k :: i <= k ==> !OccursAt(s, q, k)
    ensures r != -1 ==> forall k :: i <= k < r ==> !OccursAt(s, q, k)
    decreases |s| - i
  {
    if i + |q| > |s| then -1
    else if s[i..i + |q|] == q then i
    else Find(s, q, i + 1)
  }

  /** String.prototype.indexOf(q, from): the first occurrence of `q` at or after
      `from` (clamped to the length of `s`), or -1. */
  function IndexFrom(s: string, q: string, from: nat): (r: int)
    ensures r == -1 <==> forall k :: Min(from, |s|) <= k ==> !OccursAt(s, q, k)
    ensures r != -1 ==> Min(from, |s|) <= r && OccursAt(s, q, r)
    ensures r != -1 ==> forall k :: Min(from, |s|) <= k < r ==> !OccursAt(s, q, k)
  {
    if from <= |s| then Find(s, q, from)
    else if q == [] then assert OccursAt(s, q, |s|); |s|
    else -1
  }

  function Min(a: int, b: int): int { if a <= b then a else b }
  function Max(a: int, b: int): int { if a >= b then a else b }

  function IndexOf(s: string, q: string): int {
    IndexFrom(s, q, 0)
  }

  /** String.prototype.includes. */
  predicate Includes(s: string, q: string) {
    IndexOf(s, q) != -1
  }

  lemma IncludesIff(s: string, q: string)
    ensures Includes(s, q) <==> exists k :: OccursAt(s, q, k)
  {
  }

  /** A slice of the text around an occurrence of `q` in the lower-cased text
      holds it, lower-cased, at the same offset from the slice start. */
  lemma WindowShowsMatch(text: string, q: string, idx: nat, a: nat, b: nat)
    requires a <= idx && idx + |q| <= b <= |text| && OccursAt(Lower(text), q, idx)
    ensures OccursAt(Lower(text[a..b]), q, idx - a)
  {
    var win := Lower(text[a..b]);
    var off := idx - a;
    forall j | 0 <= j < |q|
      ensures win[off + j] == q[j]
    {
      LowerSliceAt(text, a, b, off + j);
      assert Lower(text)[idx..idx + |q|][j] == q[j];
    }
    OccursFromChars(win, q, off);
  }

  lemma LowerSliceAt(text: string, a: nat, b: nat, j: nat)
    requires a <= b <= |text| && j < b - a
    ensures Lower(text[a..b])[j] == Lower(text)[a + j]
  {
  }

  lemma OccursFromChars(s: string, q: string, off: nat)
    requires off + |q| <= |s|
    requires forall j :: 0 <= j < |q| ==> s[off + j] == q[j]
    ensures OccursAt(s, q, off)
  {
  }

  // ---------------------------------------------------------------------------
  // split, join
  // ---------------------------------------------------------------------------

  function Join(parts: seq<string>, sep: string): (r: string)
  {
    if parts == [] then []
    else if |parts| == 1 then parts[0]
    else parts[0] + sep + Join(parts[1..], sep)
  }

  /** Joining two non-empty lists is joining each and putting one separator between. */
  lemma {:induction false} JoinAppend(a: seq<string>, b: seq<string>, sep: string)
    requires a != [] && b != []
    ensures Join(a + b, sep) == Join(a, sep) + sep + Join(b, sep)
  {
    var ab := a + b;
    assert ab[0] == a[0];
    if |a| == 1 {
      assert ab[1..] == b;
    } else {
      assert ab[1..] == a[1..] + b;
      JoinAppend(a[1..], b, sep);
      calc {
        Join(ab, sep);
        a[0] + sep + Join(a[1..] + b, sep);
        a[0] + sep + (Join(a[1..], sep) + sep + Join(b, sep));
        (a[0] + sep + Join(a[1..], sep)) + sep + Join(b, sep);
      }
    }
  }

  /** The concatenation of the parts, without separators. */
  function Concat(parts: seq<string>): string
  {
    if parts == [] then [] else parts[0] + Concat(parts[1..])
  }

  lemma {:induction false} ConcatAppend(a: seq<string>, b: seq<string>)
    ensures Concat(a + b) == Concat(a) + Concat(b)
  {
    if a == [] {
      assert a + b == b;
    } else {
      var ab := a + b;
      assert ab[0] == a[0];
      assert ab[1..] == a[1..] + b;
      ConcatAppend(a[1..], b);
      calc {
        Concat(ab);
        ab[0] + Concat(ab[1..]);
        a[0] + (Concat(a[1..]) + Concat(b));
        (a[0] + Concat(a[1..])) + Concat(b);
        Concat(a) + Concat(b);
      }
    }
  }

  /** String.prototype.split with a one-character separator: the pieces between
      consecutive separators (there is always at least one piece). */
  function Split(s: string, sep: char): (r: seq<string>)
    ensures |r| >= 1
    decreases |s|
  {
    if sep !in s then [s]
    else
      var k := FirstIndex(s, sep);
      [s[..k]] + Split(s[k + 1..], sep)
  }

  /** No piece holds the separator. */
  lemma {:induction false} SplitPiecesFree(s: string, sep: char)
    ensures forall j :: 0 <= j < |Split(s, sep)| ==> sep !in Split(s, sep)[j]
    decreases |s|
  {
    if sep in s {
      var k := FirstIndex(s, sep);
      var t := Split(s[k + 1..], sep);
      SplitPiecesFree(s[k + 1..], sep);
      var r := [s[..k]] + t;
      assert Split(s, sep) == r;
      forall j | 0 <= j < |r| ensures sep !in r[j] {
        if j > 0 { assert r[j] == t[j - 1]; }
      }
    }
  }

  /** `p` is the suffix of `s` after its last `sep`, or all of `s`. */
  predicate LastPiece(s: string, sep: char, p: string) {
    && |p| <= |s| && s[|s| - |p|..] == p
    && (|p| == |s| || s[|s| - |p| - 1] == sep)
  }

  /** The last piece (what Array.prototype.pop returns) is the suffix after
      the last separator, or the whole string when there is none. */
  lemma {:induction false} SplitLast(s: string, sep: char)
    ensures LastPiece(s, sep, Last(Split(s, sep)))
    decreases |s|
  {
    if sep !in s {
      LastPieceWhole(s, sep);
      SplitWhole(s, sep);
    } else {
      var k := FirstIndex(s, sep);
      SplitLast(s[k + 1..], sep);
      LastPieceStep(s, sep, k, Last(Split(s[k + 1..], sep)));
      SplitLastCons(s, sep);
    }
  }

  lemma SplitWhole(s: string, sep: char)
    requires sep !in s
    ensures Last(Split(s, sep)) == s
  {
  }

  lemma SplitLastCons(s: string, sep: char)
    requires sep in s
    ensures Last(Split(s, sep)) == Last(Split(s[FirstIndex(s, sep) + 1..], sep))
  {
    var k := FirstIndex(s, sep);
    var t := Split(s[k + 1..], sep);
    SplitCons(s, sep);
    LastCons(s[..k], t);
  }

  lemma LastCons(a: string, t: seq<string>)
    requires t != []
    ensures Last([a] + t) == Last(t)
  {
  }



  /** The last element (what Array.prototype.pop returns). */
  function Last(r: seq<string>): string
    requires r != []
  {
    r[|r| - 1]
  }

  lemma LastPieceWhole(s: string, sep: char)
    ensures LastPiece(s, sep, s)
  {
    assert s[0..] == s;
  }

  lemma LastPieceStep(s: string, sep: char, k: nat, p: string)
    requires k < |s| && s[k] == sep
    requires LastPiece(s[k + 1..], sep, p)
    ensures LastPiece(s, sep, p)
  {
    var rest := s[k + 1..];
    assert s[|s| - |p|..] == rest[|rest| - |p|..];
    assert |p| < |rest| ==> s[|s| - |p| - 1] == rest[|rest| - |p| - 1];
  }

  function FirstIndex(s: string, c: char): (k: nat)
    requires c in s
    ensures k < |s| && s[k] == c && c !in s[..k]
  {
    if s[0] == c then 0 else 1 + FirstIndex(s[1..], c)
  }

  lemma SplitCons(s: string, sep: char)
    requires sep in s
    ensures Split(s, sep) == [s[..FirstIndex(s, sep)]] + Split(s[FirstIndex(s, sep) + 1..], sep)
  {
  }

  /** Joining the pieces with the separator gives back the string. */
  lemma {:induction false} JoinSplit(s: string, sep: char)
    ensures Join(Split(s, sep), [sep]) == s
    decreases |s|
  {
    if sep in s {
      var k := FirstIndex(s, sep);
      var tail := s[k + 1..];
      var rest := Split(tail, sep);
      JoinSplit(tail, sep);
      SplitCons(s, sep);
      JoinCons(s[..k], rest, [sep]);
      SplitAround(s, k);
    }
  }

  /** A string is the part before position `k`, the character there and the
      part after it. */
  lemma SplitAround(s: string, k: nat)
    requires k < |s|
    ensures s == s[..k] + [s[k]] + s[k + 1..]
  {
  }

  lemma JoinCons(a: string, rest: seq<string>, sep: string)
    requires rest != []
    ensures Join([a] + rest, sep) == a + sep + Join(rest, sep)
  {
    var r := [a] + rest;
    assert r[0] == a && r[1..] == rest;
  }


  /** Only one index holds the last occurrence of a character. */
  lemma LastIndexUnique(s: string, c: char, j: nat)
    requires j < |s| && s[j] == c && c !in s[j + 1..]
    ensures LastIndex(s, c) == Some(j)
  {
    assert c in s by { assert s[j] == c; }
    var r := LastIndex(s, c).value;
    assert forall i :: j < i < |s| ==> s[i] != c by {
      forall i | j < i < |s| ensures s[i] != c { assert s[i] == s[j + 1..][i - j - 1]; }
    }
    assert forall i :: r < i < |s| ==> s[i] != c by {
      forall i | r < i < |s| ensures s[i] != c { assert s[i] == s[r + 1..][i - r - 1]; }
    }
  }

  /** The first piece runs from the start up to the first separator, or to
      the end when there is none. */
  lemma SplitFirst(s: string, sep: char)
    ensures var p := Split(s, sep)[0];
      |p| <= |s| && p == s[..|p|] && (|p| == |s| || s[|p|] == sep)
  {
    if sep in s {
      SplitCons(s, sep);
    }
  }

  /** The second piece is the first piece of what follows the first separator. */
  lemma SplitSecond(s: string, sep: char)
    requires sep in s
    ensures |Split(s, sep)| >= 2
    ensures Split(s, sep)[1] == Split(s[FirstIndex(s, sep) + 1..], sep)[0]
  {
    SplitCons(s, sep);
  }

  /** String.prototype.split(/\s+/): the pieces between maximal runs of white
      space. A leading or trailing run gives an empty first or last piece. */
  function SplitWs(s: string): (r: seq<string>)
    ensures |r| >= 1
    decreases |s|
  {
    if forall j :: 0 <= j < |s| ==> !IsSpace(s[j]) then [s]
    else
      var k := FirstSpace(s);
      var rest := TrimStart(s[k..]);
      [s[..k]] + SplitWs(rest)
  }

  function FirstSpace(s: string): (k: nat)
    requires exists j :: 0 <= j < |s| && IsSpace(s[j])
    ensures k < |s| && IsSpace(s[k])
    ensures forall j :: 0 <= j < k ==> !IsSpace(s[j])
  {
    if IsSpace(s[0]) then 0
    else
      assert exists j :: 0 <= j < |s[1..]| && IsSpace(s[1..][j]) by {
        var j :| 0 <= j < |s| && IsSpace(s[j]);
        assert s[1..][j - 1] == s[j];
      }
      1 + FirstSpace(s[1..])
  }

  /** The characters of `s` that are not white space, in order. */
  function NonSpace(s: string): string
  {
    if s == [] then [] else (if IsSpace(s[0]) then [] else [s[0]]) + NonSpace(s[1..])
  }

  lemma NonSpaceOfWord(s: string)
    requires forall j :: 0 <= j < |s| ==> !IsSpace(s[j])
    ensures NonSpace(s) == s
  {
  }

  /** Splitting on white space loses exactly the white space: the words, put
      together, are the non-space characters of the text. */
  lemma {:induction false} SplitWsKeepsText(s: string)
    ensures Concat(SplitWs(s)) == NonSpace(s)
    decreases |s|
  {
    if forall j :: 0 <= j < |s| ==> !IsSpace(s[j]) {
      NonSpaceOfWord(s);
    } else {
      var k := FirstSpace(s);
      var rest := TrimStart(s[k..]);
      SplitWsKeepsText(rest);
      NonSpaceStep(s, k);
      var r := [s[..k]] + SplitWs(rest);
      assert r[0] == s[..k] && r[1..] == SplitWs(rest);
    }
  }

  /** A word, then white space, then the rest: only the word and the rest's
      non-space characters remain. */
  lemma NonSpaceStep(s: string, k: nat)
    requires k <= |s| && forall j :: 0 <= j < k ==> !IsSpace(s[j])
    ensures NonSpace(s) == s[..k] + NonSpace(TrimStart(s[k..]))
  {
    NonSpaceWord(s, k);
    NonSpaceTrimStart(s[k..]);
  }

  /** A prefix without white space is kept whole. */
  lemma {:induction false} NonSpaceWord(s: string, k: nat)
    requires k <= |s| && forall j :: 0 <= j < k ==> !IsSpace(s[j])
    ensures NonSpace(s) == s[..k] + NonSpace(s[k..])
  {
    if k > 0 {
      NonSpaceWord(s[1..], k - 1);
      assert s[1..][k - 1..] == s[k..];
      assert s[..k] == [s[0]] + s[1..][..k - 1];
    }
  }

  /** Leading white space contributes nothing. */
  lemma {:induction false} NonSpaceTrimStart(s: string)
    ensures NonSpace(s) == NonSpace(TrimStart(s))
    decreases |s|
  {
    if s != [] && IsSpace(s[0]) {
      NonSpaceTrimStart(s[1..]);
    }
  }


  // ---------------------------------------------------------------------------
  // substring, endsWith, character classes
  // ---------------------------------------------------------------------------

  function ClampIndex(i: int, len: nat): (r: nat)
    ensures r <= len
  {
    if i < 0 then 0 else if i > len then len else i
  }

  /** String.prototype.substring(a, b): both ends are clamped into [0, |s|] and
      swapped when the first is larger. */
  function Substring(s: string, a: int, b: int): (r: string)
    ensures |r| <= |s|
    ensures 0 <= a <= b <= |s| ==> r == s[a..b]
  {
    var x := ClampIndex(a, |s|);
    var y := ClampIndex(b, |s|);
    if x <= y then s[x..y] else s[y..x]
  }

  predicate EndsWith(s: string, suffix: string) {
    |suffix| <= |s| && s[|s| - |suffix|..] == suffix
  }

  /** The string with every character of `cs` removed. */
  function RemoveChars(s: string, cs: set<char>): (r: string)
    ensures |r| <= |s|
    ensures forall j :: 0 <= j < |r| ==> r[j] !in cs
  {
    if s == [] then []
    else (if s[0] in cs then [] else [s[0]]) + RemoveChars(s[1..], cs)
  }

  /** The string with every character of `cs` replaced by `repl`. */
  function ReplaceChars(s: string, cs: set<char>, repl: char): (r: string)
    requires repl !in cs
    ensures |r| == |s|
    ensures forall j :: 0 <= j < |r| ==> r[j] !in cs
    ensures forall j :: 0 <= j < |r| && s[j] !in cs ==> r[j] == s[j]
    ensures forall j :: 0 <= j < |r| && s[j] in cs ==> r[j] == repl
  {
    seq(|s|, j requires 0 <= j < |s| => if s[j] in cs then repl else s[j])
  }

  /** The index of the last occurrence of `c`, if any. */
  function LastIndex(s: string, c: char): (r: Option<nat>)
    ensures r.None? <==> c !in s
    ensures r.Some? ==> r.value < |s| && s[r.value] == c && c !in s[r.value + 1..]
  {
    if s == [] then None
    else if s[|s| - 1] == c then Some(|s| - 1)
    else
      var r := LastIndex(s[..|s| - 1], c);
      assert s == s[..|s| - 1] + [s[|s| - 1]];
      r
  }

  // ---------------------------------------------------------------------------
  // Numbers as decimal text
  // ---------------------------------------------------------------------------

  predicate IsDigit(c: char) { '0' <= c <= '9' }

  function DigitChar(d: nat): (c: char)
    requires d < 10
    ensures IsDigit(c)
  {
    ('0' as int + d) as char
  }

  /** The decimal rendering of a natural number, as `${n}` gives it. */
  function DecimalString(n: nat): (r: string)
    ensures |r| >= 1
    ensures forall j :: 0 <= j < |r| ==> IsDigit(r[j])
  {
    if n < 10 then [DigitChar(n)] else DecimalString(n / 10) + [DigitChar(n % 10)]
  }

  /** The value of `c` as a hexadecimal digit, or 16 when it is none. A
      character is a digit in base 10 or 16 when its value is below the base. */
  function HexValue(c: char): (d: nat)
    ensures d <= 16
    ensures d < 10 <==> IsDigit(c)
  {
    if IsDigit(c) then c as int - '0' as int
    else if 'a' <= c <= 'f' then c as int - 'a' as int + 10
    else if 'A' <= c <= 'F' then c as int - 'A' as int + 10
    else 16
  }

  /** The value of a string of digits in base `radix`. */
  function DigitsValue(s: string, radix: nat): nat
    requires forall j :: 0 <= j < |s| ==> HexValue(s[j]) < radix
  {
    if s == [] then 0 else radix * DigitsValue(s[..|s| - 1], radix) + HexValue(s[|s| - 1])
  }

  /** The longest prefix of `s` made of digits in base `radix`. */
  function DigitPrefix(s: string, radix: nat): (r: string)
    ensures |r| <= |s| && r == s[..|r|]
    ensures forall j :: 0 <= j < |r| ==> HexValue(r[j]) < radix
    ensures |r| < |s| ==> HexValue(s[|r|]) >= radix
  {
    if s == [] || HexValue(s[0]) >= radix then [] else [s[0]] + DigitPrefix(s[1..], radix)
  }

  /** parseInt(s) with no radix: leading white space is skipped, an optional
      sign is read, then a `0x` or `0X` prefix selects base 16 (base 10
      otherwise), then the longest run of digits in that base is read; no
      digit at all gives NaN, here None. */
  function ParseInt(s: string): Option<int>
  {
    var t := TrimStart(s);
    var negative := |t| > 0 && t[0] == '-';
    var body := if |t| > 0 && (t[0] == '-' || t[0] == '+') then t[1..] else t;
    var hex := |body| >= 2 && body[0] == '0' && body[1] in {'x', 'X'};
    var radix := if hex then 16 else 10;
    var digits := DigitPrefix(if hex then body[2..] else body, radix);
    var v: int := DigitsValue(digits, radix);
    if digits == [] then None
    else if negative then Some(-v)
    else Some(v)
  }

  /** Without a radix, "0x10" is read in base 16. */
  lemma ParseHexPrefix()
    ensures ParseInt("0x10") == Some(16)
  {
    var s := "0x10";
    assert !IsSpace(s[0]);
    assert TrimStart(s) == s;
    assert s[2..] == "10";
    HexTen();
  }

  lemma HexTen()
    ensures DigitPrefix("10", 16) == "10" && DigitsValue("10", 16) == 16
  {
    assert DigitPrefix("", 16) == "";
    assert DigitPrefix("0", 16) == "0";
    assert DigitsValue("1", 16) == 1 by { assert "1"[..0] == ""; }
    assert DigitsValue("10", 16) == 16 by { assert "10"[..1] == "1"; }
  }

  /** A hexadecimal prefix with no digit after it is NaN. */
  lemma ParseHexEmpty()
    ensures ParseInt("0x") == None
  {
    var e := "0x";
    assert !IsSpace(e[0]);
    assert TrimStart(e) == e;
    assert e[2..] == "";
  }

  lemma {:induction false} DigitsOfDecimal(n: nat)
    ensures DigitsValue(DecimalString(n), 10) == n
  {
    if n >= 10 {
      DigitsOfDecimal(n / 10);
      var s := DecimalString(n / 10) + [DigitChar(n % 10)];
      assert s[..|s| - 1] == DecimalString(n / 10);
    }
  }

  /** parseInt reads back the number that `${n}` wrote. */
  lemma ParseDecimal(n: nat)
    ensures ParseInt(DecimalString(n)) == Some(n)
  {
    var s := DecimalString(n);
    DigitNotSpace(s[0]);
    assert TrimStart(s) == s;
    assert s[0] != '-' && s[0] != '+';
    assert !(|s| >= 2 && s[0] == '0' && s[1] in {'x', 'X'}) by {
      if |s| >= 2 && s[0] == '0' { assert IsDigit(s[1]); }
    }
    DigitPrefixAll(s);
    DigitsOfDecimal(n);
  }

  lemma DigitNotSpace(c: char)
    requires IsDigit(c)
    ensures !IsSpace(c)
  {
  }

  lemma DigitPrefixAll(s: string)
    requires forall j :: 0 <= j < |s| ==> IsDigit(s[j])
    ensures DigitPrefix(s, 10) == s
  {
  }

  // ---------------------------------------------------------------------------
  // Math.round of a ratio
  // ---------------------------------------------------------------------------

  /** Math.round(p / q) for q > 0: the nearest integer, halves rounded up. */
  function RoundRatio(p: int, q: int): (r: int)
    requires q > 0
    ensures 2 * r * q <= 2 * p + q < 2 * (r + 1) * q
  {
    (2 * p + q) / (2 * q)
  }

  /** Math.round(part / whole * 100). */
  function Percent(part: int, whole: int): (r: int)
    requires whole > 0
  {
    RoundRatio(part * 100, whole)
  }

  /** A share of a whole between none and all of it is between 0 and 100
      percent, and all of it is exactly 100. */
  lemma PercentBounds(part: int, whole: int)
    requires 0 <= part <= whole && whole > 0
    ensures 0 <= Percent(part, whole) <= 100
    ensures part == whole ==> Percent(part, whole) == 100
  {
    var r := Percent(part, whole);
    RoundBounds(part * 100, whole, 100, r);
  }

  /** With 0 <= p <= m * q the rounded ratio lies between 0 and m, and is m when p == m * q. */
  lemma RoundBounds(p: int, q: int, m: int, r: int)
    requires q > 0 && 0 <= p <= m * q && r == RoundRatio(p, q)
    ensures 0 <= r <= m
    ensures p == m * q ==> r == m
  {
    var a := 2 * r * q;
    var b := 2 * (r + 1) * q;
    assert a == (2 * r) * q && b == (2 * r + 2) * q;
    if r < 0 {
      MulMonotone(2 * r + 2, 0, q);
    }
    if r > m {
      MulMonotone(2 * m + 2, 2 * r, q);
    }
    if p == m * q && r < m {
      MulMonotone(2 * r + 2, 2 * m, q);
    }
  }

  lemma MulMonotone(a: int, b: int, c: int)
    requires c > 0
    ensures a < b <==> a * c < b * c
    ensures a <= b <==> a * c <= b * c
  {
    if a < b {
      assert b * c - a * c == (b - a) * c;
    } else {
      assert a * c - b * c == (a - b) * c;
    }
  }
}
