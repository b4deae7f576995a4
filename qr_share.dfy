/**
 * Sharing a book by link or QR code (qr-share.js): the XOR-0x55 obfuscation,
 * the byte-array/base64 helpers, the share envelope that prepareShareData
 * builds and the ordered checks of processImportData.
 *
 * JSON.stringify, JSON.parse and pako's deflate/inflate are parameters: the
 * model says where the code calls them and what it does with their results,
 * not what they compute.
 */
module QrShare {
  import opened Text
  import opened Base64
  import opened Records

  // ---------------------------------------------------------------------------
  // Bitwise exclusive or on naturals
  // ---------------------------------------------------------------------------

  /** a ^ b, one binary digit at a time from the lowest. */
  function Xor(a: nat, b: nat): nat
    decreases a + b
  {
    if a == 0 && b == 0 then 0
    else 2 * Xor(a / 2, b / 2) + (if a % 2 != b % 2 then 1 else 0)
  }

  /** The lowest digit of a ^ b and the digits above it. */
  lemma XorDigits(a: nat, b: nat)
    ensures Xor(a, b) % 2 == (if a % 2 != b % 2 then 1 else 0)
    ensures Xor(a, b) / 2 == Xor(a / 2, b / 2)
  {
    if a == 0 && b == 0 {
      assert Xor(a / 2, b / 2) == 0;
    } else {
      HalfOf(Xor(a / 2, b / 2), if a % 2 != b % 2 then 1 else 0);
    }
  }

  lemma HalfOf(y: nat, bit: nat)
    requires bit < 2
    ensures (2 * y + bit) % 2 == bit && (2 * y + bit) / 2 == y
  {
  }

  /** (a ^ b) ^ b == a */
  lemma {:induction false} XorInvolution(a: nat, b: nat)
    ensures Xor(Xor(a, b), b) == a
    decreases a + b
  {
    if a != 0 || b != 0 {
      var c := Xor(a, b);
      XorDigits(a, b);
      XorDigits(c, b);
      XorInvolution(a / 2, b / 2);
      assert Xor(c, b) / 2 == a / 2;
      assert Xor(c, b) % 2 == a % 2;
    }
  }

  function Pow2(k: nat): (r: nat)
    ensures r >= 1
  {
    if k == 0 then 1 else 2 * Pow2(k - 1)
  }

  lemma {:induction false} XorZero(a: nat)
    ensures Xor(a, 0) == a
    decreases a
  {
    if a != 0 {
      XorZero(a / 2);
    }
  }

  lemma DivUnique(n: int, d: int, q: int, r: int)
    requires d > 0 && 0 <= r < d && n == d * q + r
    ensures n / d == q
  {
    var q', r' := n / d, n % d;
    assert d * (q - q') == r' - r;
    MulAwayFromZero(d, q - q');
  }

  lemma MulAwayFromZero(d: int, x: int)
    requires d > 0
    ensures x >= 1 ==> d * x >= d
    ensures x <= -1 ==> d * x <= -d
  {
  }

  lemma HalfQuotient(x: nat, bit: nat, m: nat)
    requires bit < 2 && m >= 1
    ensures (2 * x + bit) / (2 * m) == x / m
  {
    var q, r := x / m, x % m;
    assert x == m * q + r;
    assert (2 * m) * q == 2 * (m * q);
    DivUnique(2 * x + bit, 2 * m, q, 2 * r + bit);
  }

  /** XOR with a number below 2^k leaves the digits from k upwards alone. */
  lemma {:induction false} XorKeepsHigh(a: nat, b: nat, k: nat)
    requires b < Pow2(k)
    ensures Xor(a, b) / Pow2(k) == a / Pow2(k)
    decreases k
  {
    if k == 0 {
      XorZero(a);
    } else {
      XorDigits(a, b);
      XorKeepsHigh(a / 2, b / 2, k - 1);
      var m := Pow2(k - 1);
      HalfQuotient(Xor(a / 2, b / 2), Xor(a, b) % 2, m);
      HalfQuotient(a / 2, a % 2, m);
    }
  }

  // ---------------------------------------------------------------------------
  // The XOR-0x55 mask of simpleEncrypt / simpleDecrypt
  // ---------------------------------------------------------------------------

  const MaskKey: nat := 0x55

  lemma MaskKeyBelow256()
    ensures MaskKey < Pow2(8) && Pow2(8) == 256
  {
  }

  /** String.fromCharCode(c.charCodeAt(0) ^ 0x55): only the low byte changes, so
      the result stays in the same block of 256 code points and is a character. */
  function MaskChar(c: char): (r: char)
    ensures r as int == Xor(c as int, MaskKey)
    ensures r as int / 256 == c as int / 256
  {
    MaskKeyBelow256();
    XorKeepsHigh(c as int, MaskKey, 8);
    var v := Xor(c as int, MaskKey);
    assert v / 256 == c as int / 256;
    assert v < 0xD800 || 0xE000 <= v < 0x11_0000;
    v as char
  }

  lemma MaskCharInvolution(c: char)
    ensures MaskChar(MaskChar(c)) == c
  {
    XorInvolution(c as int, MaskKey);
  }

  /** The mask applied to every character. */
  function Mask(s: string): (r: string)
    ensures |r| == |s|
    ensures forall i :: 0 <= i < |s| ==> r[i] == MaskChar(s[i])
  {
    seq(|s|, i requires 0 <= i < |s| => MaskChar(s[i]))
  }

  /** Masking twice gives the text back: simpleDecrypt's loop undoes
      simpleEncrypt's. */
  lemma MaskInvolution(s: string)
    ensures Mask(Mask(s)) == s
  {
    forall i | 0 <= i < |s| ensures Mask(Mask(s))[i] == s[i] {
      MaskCharInvolution(s[i]);
    }
  }

  /** A character is below 256 exactly when its masked form is. */
  lemma MaskKeepsBinary(s: string)
    ensures IsBinaryString(Mask(s)) <==> IsBinaryString(s)
  {
  }

  /** What simpleEncrypt returns: btoa of the masked text, or None where btoa
      throws. */
  function EncryptText(text: string): Option<string> {
    Btoa(Mask(text))
  }

  /** simpleEncrypt fails exactly on a text with a character from 256 up. */
  lemma EncryptTextFails(text: string)
    ensures EncryptText(text).None? <==> exists i :: 0 <= i < |text| && text[i] as int >= 256
  {
    MaskKeepsBinary(text);
  }

  /** The text simpleDecrypt recovers from a base64 string, before JSON.parse. */
  function DecryptText(s: string): Option<string> {
    match Atob(s)
    case None => None
    case Some(t) => Some(Mask(t))
  }

  /** Decryption inverts encryption for every text simpleEncrypt accepts. */
  lemma DecryptEncrypt(text: string)
    requires IsBinaryString(text)
    ensures EncryptText(text).Some?
    ensures DecryptText(EncryptText(text).value) == Some(text)
  {
    MaskKeepsBinary(text);
    AtobBtoa(Mask(text));
    MaskInvolution(text);
  }

  /** The loop that simpleEncrypt and simpleDecrypt both run: the XOR of every
      character code with 0x55, appended one at a time. */
  method MaskLoop(text: string) returns (result: string)
    ensures result == Mask(text)
  {
    result := "";
    var i := 0;
    while i < |text|
      invariant 0 <= i <= |text|
      invariant result == Mask(text[..i])
    {
      result := result + [MaskChar(text[i])];
      i := i + 1;
    }
    assert text[..i] == text;
  }

  /** simpleEncrypt: the masked text, handed to btoa. */
  method SimpleEncrypt(text: string) returns (r: Option<string>)
    ensures r == EncryptText(text)
    ensures r.Some? ==> DecryptText(r.value) == Some(text)
  {
    var result := MaskLoop(text);
    r := Btoa(result);
    if r.Some? {
      MaskKeepsBinary(text);
      DecryptEncrypt(text);
    }
  }

  /** `data.content || data.data`, the field simpleDecrypt and the decompression
      step read. */
  function PayloadField(data: Record): Option<Value> {
    OrElse(Field(data, "content"), Field(data, "data"))
  }

  /** simpleDecrypt's result: atob of the payload field, the mask, JSON.parse.
      None where any of the three throws. */
  function DecryptRecord(data: Record, parse: string -> Option<Record>): Option<Record> {
    match ToJsString(PayloadField(data))
    case None => None
    case Some(s) =>
      match DecryptText(s)
      case None => None
      case Some(t) => parse(t)
  }

  /** simpleDecrypt: atob of the payload field, the mask loop, JSON.parse. */
  method SimpleDecrypt(data: Record, parse: string -> Option<Record>) returns (r: Option<Record>)
    ensures r == DecryptRecord(data, parse)
  {
    var arg := ToJsString(PayloadField(data));
    if arg.None? {
      return None;
    }
    var text := Atob(arg.value);
    if text.None? {
      return None;
    }
    var result := MaskLoop(text.value);
    r := parse(result);
  }

  // ---------------------------------------------------------------------------
  // Byte arrays and base64
  // ---------------------------------------------------------------------------

  lemma BytesOfCharsOf(bs: seq<Byte>)
    ensures BytesOf(CharsOf(bs)) == bs
  {
  }

  /** arrayBufferToBase64: one character per byte, then btoa, which cannot fail
      on such a string. */
  method ArrayBufferToBase64(buffer: array<Byte>) returns (r: string)
    ensures r == Encode(buffer[..])
    ensures Decode(r) == Some(buffer[..])
  {
    var binary := "";
    var i := 0;
    while i < buffer.Length
      invariant 0 <= i <= buffer.Length
      invariant binary == CharsOf(buffer[..i])
    {
      binary := binary + [buffer[i] as char];
      i := i + 1;
    }
    assert buffer[..i] == buffer[..];
    BytesOfCharsOf(buffer[..]);
    r := Btoa(binary).value;
    DecodeEncode(buffer[..]);
  }

  /** base64ToArrayBuffer: atob, then a fresh array filled with the character
      codes. None where atob throws. */
  method Base64ToArrayBuffer(base64: string) returns (r: Option<array<Byte>>)
    ensures r.None? <==> Decode(base64).None?
    ensures r.Some? ==> fresh(r.value) && r.value[..] == Decode(base64).value
  {
    var binaryString := Atob(base64);
    if binaryString.None? {
      return None;
    }
    var s := binaryString.value;
    var bytes := new Byte[|s|];
    var i := 0;
    while i < |s|
      invariant 0 <= i <= |s|
      invariant forall j :: 0 <= j < i ==> bytes[j] == s[j] as int
    {
      bytes[i] := s[i] as int;
      i := i + 1;
    }
    assert bytes[..] == BytesOf(s);
    BytesOfCharsOf(Decode(base64).value);
    r := Some(bytes);
  }

  // ---------------------------------------------------------------------------
  // The share envelope (prepareShareData)
  // ---------------------------------------------------------------------------

  const DayMs: int := 24 * 60 * 60 * 1000

  /** The three check boxes; None where the element is missing from the page. */
  datatype ShareOptions = ShareOptions(compress: Option<bool>, encrypt: Option<bool>, expire: Option<bool>)

  datatype ShareData = ShareData(data: string, metadata: Record, compressed: bool, encrypted: bool)

  /** `element?.checked ?? true` */
  function CheckedOrTrue(box: Option<bool>): bool {
    if box.Some? then box.value else true
  }

  /** The fields prepareShareData puts before the book's own. */
  function Header(now: int, expire: Option<bool>): (h: Record)
    ensures h.Keys == {"version", "timestamp", "expires"}
    ensures h["version"] == Str("1.0") && h["timestamp"] == Date(now)
    ensures h["expires"] == (if expire == Some(true) then Date(now + DayMs) else Null)
  {
    map["version" := Str("1.0"), "timestamp" := Date(now),
        "expires" := if expire == Some(true) then Date(now + DayMs) else Null]
  }

  /** The copy of the book without its library-local fields. */
  function ShareCopy(book: Record): (r: Record)
    ensures r.Keys == book.Keys - {"id", "addedAt"}
    ensures forall k :: k in r ==> r[k] == book[k]
  {
    book - {"id", "addedAt"}
  }

  /** The copy, after compression when it is asked for and pako is loaded and
      succeeds, and its string form. */
  function Compressed(bookData: Record, compress: bool, pakoLoaded: bool,
                      stringify: Record -> string, deflate: string -> Option<seq<Byte>>): (Record, string)
  {
    var dataString := stringify(bookData);
    if compress && pakoLoaded && deflate(dataString).Some? then
      (bookData["compressed" := Bool(true)], Encode(deflate(dataString).value))
    else (bookData, dataString)
  }

  /** The copy with the encrypted flag set when encryption is on. */
  function Flagged(bookData: Record, encrypt: bool): Record {
    if encrypt then bookData["encrypted" := Bool(true)] else bookData
  }

  /** prepareShareData. None where it throws: simpleEncrypt or the final btoa
      meets a character from 256 up. The compressed and encrypted string is
      computed and then left unused: the envelope carries the book's own fields
      and the two flags. */
  function PrepareShareData(book: Record, opts: ShareOptions, now: int, pakoLoaded: bool,
                            stringify: Record -> string, deflate: string -> Option<seq<Byte>>): Option<ShareData>
  {
    var compress := CheckedOrTrue(opts.compress);
    var encrypt := CheckedOrTrue(opts.encrypt);
    var (bookData, dataString) := Compressed(ShareCopy(book), compress, pakoLoaded, stringify, deflate);
    if encrypt && EncryptText(dataString).None? then None
    else
      var metadata := Header(now, opts.expire) + Flagged(bookData, encrypt);
      match Btoa(stringify(metadata))
      case None => None
      case Some(data) => Some(ShareData(data, metadata, compress, encrypt))
  }

  /** What the envelope holds: never the book's id or addedAt; every other field
      of the book unchanged (the plain content included) except the two flags;
      the flags as chosen; the header fields where the book has none of its own;
      and the payload is the base64 of the envelope's JSON. */
  lemma PrepareShareDataEnvelope(book: Record, opts: ShareOptions, now: int, pakoLoaded: bool,
                                 stringify: Record -> string, deflate: string -> Option<seq<Byte>>)
    requires PrepareShareData(book, opts, now, pakoLoaded, stringify, deflate).Some?
    ensures var r := PrepareShareData(book, opts, now, pakoLoaded, stringify, deflate).value;
      && "id" !in r.metadata && "addedAt" !in r.metadata
      && (forall k :: k in book && k !in {"id", "addedAt", "compressed", "encrypted"} ==> k in r.metadata && r.metadata[k] == book[k])
      && r.compressed == CheckedOrTrue(opts.compress)
      && r.encrypted == CheckedOrTrue(opts.encrypt)
      && (r.encrypted ==> r.metadata["encrypted"] == Bool(true))
      && ("version" !in book ==> r.metadata["version"] == Str("1.0"))
      && ("timestamp" !in book ==> r.metadata["timestamp"] == Date(now))
      && ("expires" !in book ==> r.metadata["expires"] == if opts.expire == Some(true) then Date(now + DayMs) else Null)
      && Atob(r.data) == Some(stringify(r.metadata))
  {
    var compress := CheckedOrTrue(opts.compress);
    var encrypt := CheckedOrTrue(opts.encrypt);
    var h := Header(now, opts.expire);
    var metadata := h + Flagged(Compressed(ShareCopy(book), compress, pakoLoaded, stringify, deflate).0, encrypt);
    var r := PrepareShareData(book, opts, now, pakoLoaded, stringify, deflate).value;
    assert r.metadata == metadata && r.compressed == compress && r.encrypted == encrypt
        && Btoa(stringify(metadata)) == Some(r.data);
    EnvelopeContents(book, compress, encrypt, pakoLoaded, stringify, deflate, h);
    AtobBtoa(stringify(metadata));
  }

  /** The header under the flagged copy: the book's fields but id and addedAt,
      the flags, and the header where the book has no field of that name. */
  lemma EnvelopeContents(book: Record, compress: bool, encrypt: bool, pakoLoaded: bool,
                         stringify: Record -> string, deflate: string -> Option<seq<Byte>>, h: Record)
    requires h.Keys == {"version", "timestamp", "expires"}
    ensures var m := h + Flagged(Compressed(ShareCopy(book), compress, pakoLoaded, stringify, deflate).0, encrypt);
      && "id" !in m && "addedAt" !in m
      && (forall k :: k in book && k !in {"id", "addedAt", "compressed", "encrypted"} ==> k in m && m[k] == book[k])
      && (encrypt ==> m["encrypted"] == Bool(true))
      && (forall k :: k in h && k !in book ==> k in m && m[k] == h[k])
  {
    var bd := Compressed(ShareCopy(book), compress, pakoLoaded, stringify, deflate).0;
    CompressedFields(book, compress, pakoLoaded, stringify, deflate);
    FlaggedFields(book, bd, encrypt);
    EnvelopeFields(book, h, Flagged(bd, encrypt));
  }

  /** Setting the encrypted flag keeps every other field of the copy. */
  lemma FlaggedFields(book: Record, bd: Record, encrypt: bool)
    requires "id" !in bd && "addedAt" !in bd
    requires forall k :: k in book && k !in {"id", "addedAt", "compressed"} ==> k in bd && bd[k] == book[k]
    requires forall k :: k in bd ==> k in book || k == "compressed"
    ensures var d := Flagged(bd, encrypt);
      && "id" !in d && "addedAt" !in d
      && (forall k :: k in book && k !in {"id", "addedAt", "compressed", "encrypted"} ==> k in d && d[k] == book[k])
      && (forall k :: k in d ==> k in book || k == "compressed" || k == "encrypted")
      && (encrypt ==> "encrypted" in d && d["encrypted"] == Bool(true))
  {
  }

  /** The copy keeps the book's fields but id and addedAt, and adds at most the
      compressed flag. */
  lemma CompressedFields(book: Record, compress: bool, pakoLoaded: bool,
                         stringify: Record -> string, deflate: string -> Option<seq<Byte>>)
    ensures var bd := Compressed(ShareCopy(book), compress, pakoLoaded, stringify, deflate).0;
      && "id" !in bd && "addedAt" !in bd
      && (forall k :: k in book && k !in {"id", "addedAt", "compressed"} ==> k in bd && bd[k] == book[k])
      && (forall k :: k in bd ==> k in book || k == "compressed")
  {
  }

  /** The header under the book's fields: the book's own value wins where it
      has one. */
  lemma EnvelopeFields(book: Record, h: Record, d: Record)
    requires h.Keys == {"version", "timestamp", "expires"}
    requires "id" !in d && "addedAt" !in d
    requires forall k :: k in book && k !in {"id", "addedAt", "compressed", "encrypted"} ==> k in d && d[k] == book[k]
    requires forall k :: k in d ==> k in book || k == "compressed" || k == "encrypted"
    ensures var m := h + d;
      && "id" !in m && "addedAt" !in m
      && (forall k :: k in book && k !in {"id", "addedAt", "compressed", "encrypted"} ==> k in m && m[k] == book[k])
      && (forall k :: k in h && k !in book ==> k in m && m[k] == h[k])
      && (forall k :: k in d ==> k in m && m[k] == d[k])
  {
  }

  /** Encryption is asked for by default; it fails on any character from 256 up
      in the JSON text, whatever else is chosen (a compressed text is base64 and
      always passes). */
  lemma PrepareShareDataFails(book: Record, opts: ShareOptions, now: int,
                              stringify: Record -> string, deflate: string -> Option<seq<Byte>>)
    requires CheckedOrTrue(opts.encrypt)
    requires !IsBinaryString(stringify(ShareCopy(book)))
    ensures PrepareShareData(book, opts, now, false, stringify, deflate).None?
  {
    MaskKeepsBinary(stringify(ShareCopy(book)));
  }

  // ---------------------------------------------------------------------------
  // Reading a share (processImportData)
  // ---------------------------------------------------------------------------

  /** The single message every failure is reported with. */
  const ImportErrorMessage: string := "Невозможно обработать данные книги"

  /** Which step stopped the import; the user sees ImportErrorMessage for all. */
  datatype Reason = BadBase64 | BadJson | BadVersion | Expired | BadCipher | BadCompressed | MissingFields

  datatype ImportResult = Imported(book: Record) | Failed(reason: Reason)
  {
    function Message(): (m: Option<string>)
      ensures m.Some? <==> this.Failed?
      ensures m.Some? ==> m.value == ImportErrorMessage
    {
      if this.Failed? then Some(ImportErrorMessage) else None
    }
  }

  /** `new Date(v)` as a number of milliseconds, where that is modelled; None
      stands for an invalid date, which compares false with everything. */
  function DateOf(v: Value): Option<int> {
    match v
    case Date(ms) => Some(ms)
    case Num(n) => Some(n)
    case Bool(b) => Some(if b then 1 else 0)
    case Null => Some(0)
    case Str(_) => None
    case Compound => None
  }

  /** `metadata.expires && new Date(metadata.expires) < new Date()` */
  predicate IsExpired(metadata: Record, now: int) {
    HasTruthy(metadata, "expires")
    && DateOf(metadata["expires"]).Some? && DateOf(metadata["expires"]).value < now
  }

  /** The inflated, re-parsed record (the compressed branch). */
  function Decompress(bookData: Record, parse: string -> Option<Record>,
                      inflate: seq<Byte> -> Option<string>): Option<Record> {
    match ToJsString(PayloadField(bookData))
    case None => None
    case Some(s) =>
      match Decode(s)
      case None => None
      case Some(bytes) =>
        match inflate(bytes)
        case None => None
        case Some(text) => parse(text)
  }

  /** The checks after the envelope is read: the version, then expiry. */
  function CheckEnvelope(metadata: Record, now: int): Option<Reason> {
    if !(Field(metadata, "version") == Some(Str("1.0"))) then Some(BadVersion)
    else if IsExpired(metadata, now) then Some(Expired)
    else None
  }

  /** The book after the optional decryption and decompression. */
  function Unwrap(bookData: Record, pakoLoaded: bool, parse: string -> Option<Record>,
                  inflate: seq<Byte> -> Option<string>): Result<Record>
  {
    var decrypted :=
      if HasTruthy(bookData, "encrypted") then
        match DecryptRecord(bookData, parse)
        case None => Err(BadCipher)
        case Some(d) => Ok(d - {"encrypted"})
      else Ok(bookData);
    if decrypted.Err? then decrypted
    else if HasTruthy(decrypted.value, "compressed") && pakoLoaded then
      match Decompress(decrypted.value, parse, inflate)
      case None => Err(BadCompressed)
      case Some(d) => Ok(d - {"compressed"})
    else decrypted
  }

  datatype Result<T> = Ok(value: T) | Err(reason: Reason)

  /** The imported book: a fresh addedAt and id, progress back to 0, every
      other field as it came. */
  function Stamped(book: Record, now: int, freshId: string): (r: Record)
    ensures Field(r, "progress") == Some(Num(0))
    ensures Field(r, "id") == Some(Str(freshId))
    ensures Field(r, "addedAt") == Some(Date(now))
    ensures forall k :: k !in {"addedAt", "id", "progress"} ==> Field(r, k) == Field(book, k)
  {
    book["addedAt" := Date(now)]["id" := Str(freshId)]["progress" := Num(0)]
  }

  /** processImportData. `now` is the clock, `freshId` the generated id. */
  function ProcessImportData(importData: string, now: int, freshId: string, pakoLoaded: bool,
                             parse: string -> Option<Record>,
                             inflate: seq<Byte> -> Option<string>): (r: ImportResult)
    ensures r.Imported? ==>
      (&& Field(r.book, "progress") == Some(Num(0))
       && Field(r.book, "id") == Some(Str(freshId))
       && Field(r.book, "addedAt") == Some(Date(now))
       && HasTruthy(r.book, "title") && HasTruthy(r.book, "content"))
  {
    match Atob(importData)
    case None => Failed(BadBase64)
    case Some(jsonString) =>
      match parse(jsonString)
      case None => Failed(BadJson)
      case Some(metadata) =>
        match CheckEnvelope(metadata, now)
        case Some(reason) => Failed(reason)
        case None =>
          var bookData := metadata - {"version", "timestamp", "expires"};
          match Unwrap(bookData, pakoLoaded, parse, inflate)
          case Err(reason) => Failed(reason)
          case Ok(book) =>
            if !HasTruthy(book, "title") || !HasTruthy(book, "content") then Failed(MissingFields)
            else Imported(Stamped(book, now, freshId))
  }

  /** The order of the checks: a wrong version is reported before expiry is
      looked at, an expired envelope is refused, and an imported book came from
      an envelope of version '1.0' that had not expired. */
  lemma ImportCheckOrder(importData: string, now: int, freshId: string, pakoLoaded: bool,
                         parse: string -> Option<Record>, inflate: seq<Byte> -> Option<string>,
                         metadata: Record)
    requires Atob(importData).Some? && parse(Atob(importData).value) == Some(metadata)
    ensures Field(metadata, "version") != Some(Str("1.0")) ==>
      ProcessImportData(importData, now, freshId, pakoLoaded, parse, inflate) == Failed(BadVersion)
    ensures Field(metadata, "version") == Some(Str("1.0")) && IsExpired(metadata, now) ==>
      ProcessImportData(importData, now, freshId, pakoLoaded, parse, inflate) == Failed(Expired)
    ensures ProcessImportData(importData, now, freshId, pakoLoaded, parse, inflate).Imported? ==>
      metadata["version"] == Str("1.0") && !IsExpired(metadata, now)
  {
  }

  /** On a plain envelope (neither encrypted nor compressed) the imported book is
      the envelope's fields without the three header fields, with a fresh id and
      addedAt and progress 0. */
  lemma ImportPlainEnvelope(importData: string, now: int, freshId: string, pakoLoaded: bool,
                            parse: string -> Option<Record>, inflate: seq<Byte> -> Option<string>,
                            metadata: Record)
    requires Atob(importData).Some? && parse(Atob(importData).value) == Some(metadata)
    requires CheckEnvelope(metadata, now).None?
    requires !HasTruthy(metadata, "encrypted") && !HasTruthy(metadata, "compressed")
    requires HasTruthy(metadata, "title") && HasTruthy(metadata, "content")
    ensures var r := ProcessImportData(importData, now, freshId, pakoLoaded, parse, inflate);
      && r.Imported?
      && r.book.Keys == (metadata.Keys - {"version", "timestamp", "expires"}) + {"addedAt", "id", "progress"}
      && (forall k :: k in metadata && k !in {"version", "timestamp", "expires", "addedAt", "id", "progress"} ==> r.book[k] == metadata[k])
  {
  }

  /** A record without a title or a content is refused, whatever path it took. */
  lemma ImportNeedsTitleAndContent(importData: string, now: int, freshId: string, pakoLoaded: bool,
                                   parse: string -> Option<Record>, inflate: seq<Byte> -> Option<string>,
                                   metadata: Record)
    requires Atob(importData).Some? && parse(Atob(importData).value) == Some(metadata)
    requires CheckEnvelope(metadata, now).None?
    requires !HasTruthy(metadata, "encrypted") && !HasTruthy(metadata, "compressed")
    requires !HasTruthy(metadata, "title")
    ensures ProcessImportData(importData, now, freshId, pakoLoaded, parse, inflate) == Failed(MissingFields)
  {
  }

  /** An encrypted envelope from prepareShareData carries the plain content; the
      importer base64-decodes that content, so a content with a character
      outside the base64 alphabet ("Hello!") is refused. */
  lemma EncryptedShareOfPlainContentFails(parse: string -> Option<Record>, inflate: seq<Byte> -> Option<string>)
    ensures Unwrap(map["title" := Str("T"), "content" := Str("Hello!"), "encrypted" := Bool(true)],
                   false, parse, inflate) == Err(BadCipher)
  {
    var m := map["title" := Str("T"), "content" := Str("Hello!"), "encrypted" := Bool(true)];
    assert PayloadField(m) == Some(Str("Hello!")) by {
      assert "content" in m && m["content"] == Str("Hello!");
    }
    HelloIsNotBase64();
    assert DecryptRecord(m, parse).None?;
    assert HasTruthy(m, "encrypted");
  }

  /** '!' is outside the base64 alphabet. */
  lemma HelloIsNotBase64()
    ensures Decode("Hello!").None?
  {
    var s := "Hello!";
    assert StripAsciiWhitespace(s) == s by {
      StripWithoutWhitespace(s);
    }
    assert StripPadding(s) == s;
    assert !IsBase64Char(s[5]);
  }



  // ---------------------------------------------------------------------------
  // Where the payload comes from
  // ---------------------------------------------------------------------------

  /** importFromLink: `new URL(link)` (here `query`, None where the constructor
      throws) and its `import` parameter; a link that is not a URL is itself the
      payload. An empty or missing payload is refused. */
  function ImportPayload(link: string, query: string -> Option<map<string, string>>): (r: Option<string>)
    ensures r.Some? ==> r.value != []
    ensures query(link).None? ==> (r.Some? <==> link != []) && (r.Some? ==> r.value == link)
    ensures query(link).Some? ==> (r.Some? <==> "import" in query(link).value && query(link).value["import"] != [])
  {
    match query(link)
    case None => if link == [] then None else Some(link)
    case Some(params) =>
      if "import" in params && params["import"] != [] then Some(params["import"]) else None
  }

  datatype FileCheck = UnsupportedFormat | BadJsonFile | NotABookFile | Payload(data: Value)

  /** handleDataFileUpload's checks before processImportData: the name ends in
      .moyue or .json, the text parses, `type` is 'moyue-book' and `data` is set. */
  function CheckDataFile(name: string, text: string, parse: string -> Option<Record>): (r: FileCheck)
    ensures !EndsWith(name, ".moyue") && !EndsWith(name, ".json") ==> r == UnsupportedFormat
    ensures r.Payload? ==>
      (&& parse(text).Some?
       && Field(parse(text).value, "type") == Some(Str("moyue-book"))
       && HasTruthy(parse(text).value, "data")
       && r.data == parse(text).value["data"])
  {
    if !EndsWith(name, ".moyue") && !EndsWith(name, ".json") then UnsupportedFormat
    else
      match parse(text)
      case None => BadJsonFile
      case Some(o) =>
        if Field(o, "type") != Some(Str("moyue-book")) || !HasTruthy(o, "data") then NotABookFile
        else Payload(o["data"])
  }

  // ---------------------------------------------------------------------------
  // The header order
  // ---------------------------------------------------------------------------

  /** The envelope of prepareShareData with the header written after the book's
      fields, so that it cannot be overridden. */
  function PrepareShareDataHeaderLast(book: Record, opts: ShareOptions, now: int, pakoLoaded: bool,
                                      stringify: Record -> string, deflate: string -> Option<seq<Byte>>): Option<ShareData>
  {
    var compress := CheckedOrTrue(opts.compress);
    var encrypt := CheckedOrTrue(opts.encrypt);
    var (bookData, dataString) := Compressed(ShareCopy(book), compress, pakoLoaded, stringify, deflate);
    if encrypt && EncryptText(dataString).None? then None
    else
      var metadata := Flagged(bookData, encrypt) + Header(now, opts.expire);
      match Btoa(stringify(metadata))
      case None => None
      case Some(data) => Some(ShareData(data, metadata, compress, encrypt))
  }

  /** As written, a book that carries its own `version` gets an envelope that
      processImportData refuses. Such a book could only come from the advanced
      import, which stores '2.0' in the books it saves; that path never runs in
      the shipped code, because loadShareSession returns null. */
  lemma VersionedBookShareRefused(opts: ShareOptions, now: int, later: int, freshId: string,
                                  stringify: Record -> string, deflate: string -> Option<seq<Byte>>,
                                  parse: string -> Option<Record>, inflate: seq<Byte> -> Option<string>)
    requires forall m :: parse(stringify(m)) == Some(m) && IsBinaryString(stringify(m))
    ensures var book := map["title" := Str("T"), "content" := Str("C"), "version" := Str("2.0")];
      var r := PrepareShareData(book, opts, now, false, stringify, deflate);
      && r.Some?
      && r.value.metadata["version"] == Str("2.0")
      && ProcessImportData(r.value.data, later, freshId, false, parse, inflate) == Failed(BadVersion)
  {
    var book := map["title" := Str("T"), "content" := Str("C"), "version" := Str("2.0")];
    var encrypt := CheckedOrTrue(opts.encrypt);
    PlainShareData(book, opts, now, stringify, deflate);
    var r := PrepareShareData(book, opts, now, false, stringify, deflate).value;
    var d := Flagged(ShareCopy(book), encrypt);
    assert "version" in d && d["version"] == Str("2.0");
    assert r.metadata["version"] == Str("2.0");
    AtobBtoa(stringify(r.metadata));
    ImportCheckOrder(r.data, later, freshId, false, parse, inflate, r.metadata);
  }

  /** Without pako and with every JSON text a binary string, prepareShareData
      succeeds and its envelope is the header under the copy and the flag. */
  lemma PlainShareData(book: Record, opts: ShareOptions, now: int,
                       stringify: Record -> string, deflate: string -> Option<seq<Byte>>)
    requires forall m :: IsBinaryString(stringify(m))
    ensures var r := PrepareShareData(book, opts, now, false, stringify, deflate);
      && r.Some?
      && r.value.metadata == Header(now, opts.expire) + Flagged(ShareCopy(book), CheckedOrTrue(opts.encrypt))
      && Btoa(stringify(r.value.metadata)) == Some(r.value.data)
  {
    var copy := ShareCopy(book);
    MaskKeepsBinary(stringify(copy));
    assert Compressed(copy, CheckedOrTrue(opts.compress), false, stringify, deflate) == (copy, stringify(copy));
  }


  /** With the header last, every envelope has version '1.0' and the expiry the
      user chose, and its version check passes. */
  lemma HeaderLastVersion(book: Record, opts: ShareOptions, now: int, pakoLoaded: bool,
                          stringify: Record -> string, deflate: string -> Option<seq<Byte>>)
    requires PrepareShareDataHeaderLast(book, opts, now, pakoLoaded, stringify, deflate).Some?
    ensures var r := PrepareShareDataHeaderLast(book, opts, now, pakoLoaded, stringify, deflate).value;
      && r.metadata["version"] == Str("1.0")
      && r.metadata["expires"] == (if opts.expire == Some(true) then Date(now + DayMs) else Null)
      && (forall later :: later < now + DayMs ==> CheckEnvelope(r.metadata, later).None?)
  {
  }
}
