/**
 * Share sessions (advanced-qr-share.js and session-manager.js): a session is a
 * record with a download quota, an expiry and an active flag. It is created
 * active with no downloads; the expiry sweep, a revoke and a regeneration
 * switch it off, and nothing switches it back on. AES-GCM is a parameter; the
 * model keeps the IV framing around it.
 */
module ShareSessions {
  import opened Text
  import opened Base64
  import opened Records
  import Seqs
  import QrShare

  const HourMs: int := 60 * 60 * 1000
  const DayMs: int := 24 * HourMs
  /** AdvancedQRShare's expirationTime and maxDownloads. */
  const ExpirationTime: int := DayMs
  const DefaultMaxDownloads: int := 10
  const IvLength: nat := 12

  /** A share session. `maxDownloads` is None where parseInt gave NaN;
      `expiresAt` is None where the stored record has no date. */
  datatype Session = Session(
    id: string,
    bookId: string,
    bookTitle: string,
    bookAuthor: string,
    format: string,
    createdAt: int,
    expiresAt: Option<int>,
    maxDownloads: Option<int>,
    passwordProtected: bool,
    downloadCount: int,
    isActive: bool,
    revokedAt: Option<int>,
    encryptedData: string)

  /** The fields of the library book a session copies. */
  datatype SharedBook = SharedBook(id: string, title: string, author: string, format: string)

  // ---------------------------------------------------------------------------
  // Creation
  // ---------------------------------------------------------------------------

  /** `parseInt(maxDownloadsInput?.value || 10)`: the input, when present and
      not empty, else 10; None for NaN. */
  function MaxDownloadsFrom(input: Option<string>): (r: Option<int>)
    ensures input.None? || input == Some("") ==> r == Some(DefaultMaxDownloads)
    ensures input.Some? && input.value != "" ==> r == ParseInt(input.value)
  {
    if input.Some? && input.value != "" then ParseInt(input.value)
    else
      ParseDecimal(DefaultMaxDownloads);
      ParseInt(DecimalString(DefaultMaxDownloads))
  }

  /** The record createShareSession builds. */
  function NewSession(book: SharedBook, id: string, now: int, maxDownloadsInput: Option<string>,
                      passwordBox: Option<bool>, encryptedData: string): (s: Session)
    ensures s.downloadCount == 0 && s.isActive && s.revokedAt.None?
    ensures s.createdAt == now && s.expiresAt == Some(now + ExpirationTime)
    ensures s.maxDownloads == MaxDownloadsFrom(maxDownloadsInput)
    ensures s.passwordProtected <==> passwordBox == Some(true)
    ensures s.id == id && s.bookId == book.id && s.encryptedData == encryptedData
  {
    Session(id, book.id, book.title, book.author, book.format, now, Some(now + ExpirationTime),
            MaxDownloadsFrom(maxDownloadsInput), passwordBox == Some(true), 0, true, None, encryptedData)
  }

  /** A fresh session is importable until its expiry, by exactly
      `maxDownloads` downloads when that is a number. */
  lemma NewSessionImportable(book: SharedBook, id: string, now: int, later: int,
                             maxDownloadsInput: Option<string>, encryptedData: string,
                             decrypt: string -> Option<Record>)
    requires later <= now + ExpirationTime
    requires MaxDownloadsFrom(maxDownloadsInput).None? || MaxDownloadsFrom(maxDownloadsInput).value > 0
    requires decrypt(encryptedData).Some?
    ensures ProcessImport(Some(NewSession(book, id, now, maxDownloadsInput, Some(false), encryptedData)),
                          None, later, decrypt).Saved?
  {
  }

  // ---------------------------------------------------------------------------
  // Session ids
  // ---------------------------------------------------------------------------

  function RadixDigit(d: nat): (c: char)
    requires d < 36
  {
    if d < 10 then ('0' as int + d) as char else ('a' as int + (d - 10)) as char
  }

  function RadixDigitValue(c: char): int {
    if '0' <= c <= '9' then c as int - '0' as int
    else if 'a' <= c <= 'z' then c as int - 'a' as int + 10
    else 36
  }

  /** Number.prototype.toString(36) for a natural number. */
  function Base36(n: nat): (r: string)
    ensures |r| >= 1
    ensures forall i :: 0 <= i < |r| ==> RadixDigitValue(r[i]) < 36
  {
    if n < 36 then [RadixDigit(n)] else Base36(n / 36) + [RadixDigit(n % 36)]
  }

  /** The value of a string of base-36 digits. */
  function Base36Value(s: string): int
    requires forall i :: 0 <= i < |s| ==> RadixDigitValue(s[i]) < 36
  {
    if s == [] then 0 else 36 * Base36Value(s[..|s| - 1]) + RadixDigitValue(s[|s| - 1])
  }

  /** Reading the digits back gives the number. */
  lemma {:induction false} Base36RoundTrip(n: nat)
    ensures Base36Value(Base36(n)) == n
  {
    if n >= 36 {
      Base36RoundTrip(n / 36);
      var s := Base36(n / 36) + [RadixDigit(n % 36)];
      assert s[..|s| - 1] == Base36(n / 36);
    }
  }

  /** generateSessionId: 'sess_', the clock in base 36, then nine random base-36
      characters (passed in). */
  function GenerateSessionId(now: nat, random: string): (r: string)
    ensures |r| == 5 + |Base36(now)| + |random|
    ensures r[..5] == "sess_"
    ensures r[5..5 + |Base36(now)|] == Base36(now)
  {
    "sess_" + Base36(now) + random
  }

  // ---------------------------------------------------------------------------
  // IV framing (encryptBookData / decryptBookData)
  // ---------------------------------------------------------------------------

  /** `combined`: the IV, then the ciphertext. */
  function Frame(iv: seq<Byte>, ct: seq<Byte>): seq<Byte> {
    iv + ct
  }

  /** `bytes.slice(0, 12)` and `bytes.slice(12)`. */
  function SplitIv(bytes: seq<Byte>): (r: (seq<Byte>, seq<Byte>))
    ensures r.0 + r.1 == bytes
    ensures |r.0| == if |bytes| < IvLength then |bytes| else IvLength
  {
    if |bytes| < IvLength then (bytes, []) else (bytes[..IvLength], bytes[IvLength..])
  }

  /** Splitting at 12 recovers the IV and the ciphertext that were framed. */
  lemma SplitFrame(iv: seq<Byte>, ct: seq<Byte>)
    requires |iv| == IvLength
    ensures SplitIv(Frame(iv, ct)) == (iv, ct)
  {
    assert (iv + ct)[..IvLength] == iv;
    assert (iv + ct)[IvLength..] == ct;
  }

  /** encryptBookData after AES: btoa of the framed bytes. */
  function EncodeFrame(iv: seq<Byte>, ct: seq<Byte>): string {
    Encode(Frame(iv, ct))
  }

  /** decryptBookData before AES: atob into a byte array, then the split. None
      where atob throws. */
  method DecodeFrame(encryptedData: string) returns (r: Option<(seq<Byte>, seq<Byte>)>)
    ensures r.None? <==> Decode(encryptedData).None?
    ensures r.Some? ==> r.value == SplitIv(Decode(encryptedData).value)
  {
    var bytes := QrShare.Base64ToArrayBuffer(encryptedData);
    if bytes.None? {
      return None;
    }
    var all := bytes.value[..];
    r := Some(SplitIv(all));
  }

  /** What decryptBookData receives is what encryptBookData framed. */
  lemma DecodeEncodeFrame(iv: seq<Byte>, ct: seq<Byte>)
    requires |iv| == IvLength
    ensures Decode(EncodeFrame(iv, ct)) == Some(iv + ct)
    ensures SplitIv(Decode(EncodeFrame(iv, ct)).value) == (iv, ct)
  {
    DecodeEncode(Frame(iv, ct));
    SplitFrame(iv, ct);
  }

  // ---------------------------------------------------------------------------
  // The share URL
  // ---------------------------------------------------------------------------

  /** `s.replace(pattern, "")` with a string pattern: the first occurrence only. */
  function RemoveFirst(s: string, pattern: string): (r: string)
    ensures IndexOf(s, pattern) == -1 ==> r == s
    ensures IndexOf(s, pattern) != -1 ==> |r| == |s| - |pattern|
    ensures var i := IndexOf(s, pattern);
      i != -1 ==>
        && OccursAt(s, pattern, i)
        && (forall k :: 0 <= k < i ==> !OccursAt(s, pattern, k))
        && r == s[..i] + s[i + |pattern|..]
  {
    var i := IndexOf(s, pattern);
    if i == -1 then s else s[..i] + s[i + |pattern|..]
  }

  datatype ShareUrl = ShareUrl(path: string, params: seq<(string, string)>)

  /** createShareUrl: the page next to library.html called import.html, with the
      session id, v=2.0, the time and, for a protected session, p=1. */
  function CreateShareUrl(baseUrl: string, session: Session, now: nat): (u: ShareUrl)
    ensures u.path == RemoveFirst(baseUrl, "library.html") + "import.html"
    ensures |u.params| >= 3
    ensures u.params[0] == ("session", session.id) && u.params[1] == ("v", "2.0")
      && u.params[2] == ("t", DecimalString(now))
    ensures ("p", "1") in u.params <==> session.passwordProtected
  {
    var params := [("session", session.id), ("v", "2.0"), ("t", DecimalString(now))];
    ShareUrl(RemoveFirst(baseUrl, "library.html") + "import.html",
             if session.passwordProtected then params + [("p", "1")] else params)
  }

  /** `t` is the clock when the URL is built (not the session's `createdAt`):
      its digits read back as that time (the import page itself reads only
      `session`, `v` and `p`). */
  lemma ShareUrlTime(baseUrl: string, session: Session, now: nat)
    ensures ParseInt(CreateShareUrl(baseUrl, session, now).params[2].1) == Some(now)
  {
    ParseDecimal(now);
  }

  // ---------------------------------------------------------------------------
  // Remaining time
  // ---------------------------------------------------------------------------

  datatype Hm = HmExpired | HoursMinutes(hours: nat, minutes: nat)

  /** AdvancedQRShare.formatTimeLeft as numbers: whole hours and the whole
      minutes of the part hour. */
  function TimeLeftHm(expiresAt: int, now: int): (r: Hm)
    ensures r.HmExpired? <==> expiresAt - now <= 0
    ensures r.HoursMinutes? ==>
      (&& r.minutes < 60
       && r.hours * HourMs + r.minutes * 60000 <= expiresAt - now < r.hours * HourMs + (r.minutes + 1) * 60000)
  {
    var diff := expiresAt - now;
    if diff <= 0 then HmExpired
    else HoursMinutes(diff / HourMs, (diff % HourMs) / 60000)
  }

  function RenderHm(t: Hm): string {
    match t
    case HmExpired => "Истек"
    case HoursMinutes(h, m) => DecimalString(h) + "ч " + DecimalString(m) + "м"
  }

  datatype Dh = NoLimit | DhExpired | DaysHours(days: nat, hours: nat)

  /** SessionManager.formatTimeLeft as numbers: no date means no limit;
      otherwise whole days and the whole hours of the part day. */
  function TimeLeftDh(expiresAt: Option<int>, now: int): (r: Dh)
    ensures r.NoLimit? <==> expiresAt.None?
    ensures r.DhExpired? <==> expiresAt.Some? && expiresAt.value - now <= 0
    ensures r.DaysHours? ==>
      (&& r.hours < 24
       && r.days * DayMs + r.hours * HourMs <= expiresAt.value - now < r.days * DayMs + (r.hours + 1) * HourMs)
  {
    if expiresAt.None? then NoLimit
    else
      var diff := expiresAt.value - now;
      if diff <= 0 then DhExpired
      else DaysHours(diff / DayMs, (diff % DayMs) / HourMs)
  }

  /** Days are shown only when there is at least one. */
  function RenderDh(t: Dh): string {
    match t
    case NoLimit => "Без ограничений"
    case DhExpired => "Истек"
    case DaysHours(d, h) =>
      if d > 0 then DecimalString(d) + "д " + DecimalString(h) + "ч" else DecimalString(h) + "ч"
  }

  /** The two formatters agree on when a session has run out, and on the hours
      within the day. */
  lemma TimeLeftAgree(expiresAt: int, now: int)
    ensures TimeLeftHm(expiresAt, now).HmExpired? <==> TimeLeftDh(Some(expiresAt), now).DhExpired?
    ensures TimeLeftHm(expiresAt, now).HoursMinutes? ==>
      TimeLeftHm(expiresAt, now).hours == TimeLeftDh(Some(expiresAt), now).days * 24 + TimeLeftDh(Some(expiresAt), now).hours
  {
    var diff := expiresAt - now;
    if diff > 0 {
      var h := diff / HourMs;
      var d := diff / DayMs;
      var hd := (diff % DayMs) / HourMs;
      assert diff == d * DayMs + diff % DayMs;
      assert diff % DayMs == hd * HourMs + (diff % DayMs) % HourMs;
      assert diff == (d * 24 + hd) * HourMs + (diff % DayMs) % HourMs;
      QrShare.DivUnique(diff, HourMs, d * 24 + hd, (diff % DayMs) % HourMs);
    }
  }

  // ---------------------------------------------------------------------------
  // The session list (SessionManager)
  // ---------------------------------------------------------------------------

  /** The sweep's filter: expired, or already inactive. */
  predicate IsStale(s: Session, now: int) {
    (s.expiresAt.Some? && s.expiresAt.value < now) || !s.isActive
  }

  function Deactivate(s: Session): (r: Session)
    ensures !r.isActive
  {
    s.(isActive := false)
  }

  /** The list after cleanupExpiredSessions: stale sessions switched off, the
      others as they were. */
  function Sweep(ss: seq<Session>, now: int): (r: seq<Session>)
    ensures |r| == |ss|
  {
    seq(|ss|, i requires 0 <= i < |ss| => if IsStale(ss[i], now) then Deactivate(ss[i]) else ss[i])
  }

  /** The sessions cleanupExpiredSessions writes back, switched off, in order. */
  function StaleBatch(ss: seq<Session>, now: int): seq<Session> {
    if ss == [] then []
    else (if IsStale(ss[0], now) then [Deactivate(ss[0])] else []) + StaleBatch(ss[1..], now)
  }

  function ActiveSessions(ss: seq<Session>): seq<Session> {
    Seqs.Filter(ss, (s: Session) => s.isActive)
  }

  function InactiveSessions(ss: seq<Session>): seq<Session> {
    Seqs.Filter(ss, (s: Session) => !s.isActive)
  }

  /** The two lists of the sessions dialog split the session list. */
  lemma ActiveInactivePartition(ss: seq<Session>)
    ensures |ActiveSessions(ss)| + |InactiveSessions(ss)| == |ss|
    ensures multiset(ActiveSessions(ss)) + multiset(InactiveSessions(ss)) == multiset(ss)
    ensures forall s :: s in ActiveSessions(ss) ==> s.isActive
    ensures forall s :: s in InactiveSessions(ss) ==> !s.isActive
  {
    Seqs.FilterPartition(ss, (s: Session) => s.isActive, (s: Session) => !s.isActive);
  }

  /** After the sweep every stale session is off, every other is untouched,
      and no session was switched on. */
  lemma SweepEffect(ss: seq<Session>, now: int)
    ensures forall i :: 0 <= i < |ss| && IsStale(ss[i], now) ==> !Sweep(ss, now)[i].isActive
    ensures forall i :: 0 <= i < |ss| && !IsStale(ss[i], now) ==> Sweep(ss, now)[i] == ss[i]
    ensures forall i :: 0 <= i < |ss| && Sweep(ss, now)[i].isActive ==> ss[i].isActive
    ensures forall i :: 0 <= i < |ss| ==> Sweep(ss, now)[i].(isActive := ss[i].isActive) == ss[i]
  {
  }

  /** After the sweep an active session has not expired, and a second sweep at
      the same time changes nothing. */
  lemma SweepIdempotent(ss: seq<Session>, now: int)
    ensures forall s :: s in Sweep(ss, now) && s.isActive ==> !IsStale(s, now)
    ensures Sweep(Sweep(ss, now), now) == Sweep(ss, now)
  {
  }

  /** The batch written back is exactly the inactive part of the swept list. */
  lemma {:induction false} StaleBatchIsInactive(ss: seq<Session>, now: int)
    ensures StaleBatch(ss, now) == InactiveSessions(Sweep(ss, now))
  {
    if ss != [] {
      StaleBatchIsInactive(ss[1..], now);
      var sw := Sweep(ss, now);
      assert sw[1..] == Sweep(ss[1..], now);
      assert sw[0] == if IsStale(ss[0], now) then Deactivate(ss[0]) else ss[0];
    }
  }

  lemma {:induction false} StaleBatchAppend(ss: seq<Session>, s: Session, now: int)
    ensures StaleBatch(ss + [s], now) == StaleBatch(ss, now) + (if IsStale(s, now) then [Deactivate(s)] else [])
  {
    var last := if IsStale(s, now) then [Deactivate(s)] else [];
    if ss == [] {
      assert ss + [s] == [s];
      assert [s][1..] == [];
    } else {
      var t := ss + [s];
      var head := if IsStale(ss[0], now) then [Deactivate(ss[0])] else [];
      assert t[0] == ss[0];
      assert t[1..] == ss[1..] + [s];
      assert StaleBatch(t, now) == head + StaleBatch(ss[1..] + [s], now);
      assert StaleBatch(ss[1..] + [s], now) == StaleBatch(ss[1..], now) + last by {
        StaleBatchAppend(ss[1..], s, now);
      }
      assert head + (StaleBatch(ss[1..], now) + last) == (head + StaleBatch(ss[1..], now)) + last;
    }
  }

  class SessionManager {
    var sessions: seq<Session>

    constructor (loaded: seq<Session>)
      ensures sessions == loaded
    {
      sessions := loaded;
    }

    /** cleanupExpiredSessions: switches the stale sessions off and returns the
        batch handed to saveSessions; None when there is none and nothing is
        written. */
    method CleanupExpiredSessions(now: int) returns (saved: Option<seq<Session>>)
      modifies this
      ensures sessions == Sweep(old(sessions), now)
      ensures saved.Some? <==> exists i :: 0 <= i < |old(sessions)| && IsStale(old(sessions)[i], now)
      ensures saved.Some? ==> saved.value == InactiveSessions(sessions)
    {
      var ss := sessions;
      var updated: seq<Session> := [];
      var expired: seq<Session> := [];
      var i := 0;
      while i < |ss|
        invariant 0 <= i <= |ss|
        invariant updated == Sweep(ss[..i], now)
        invariant expired == StaleBatch(ss[..i], now)
        invariant (expired != []) <==> exists j :: 0 <= j < i && IsStale(ss[j], now)
      {
        StaleBatchAppend(ss[..i], ss[i], now);
        assert ss[..i + 1] == ss[..i] + [ss[i]];
        if IsStale(ss[i], now) {
          updated := updated + [Deactivate(ss[i])];
          expired := expired + [Deactivate(ss[i])];
        } else {
          updated := updated + [ss[i]];
        }
        i := i + 1;
      }
      assert ss[..i] == ss;
      sessions := updated;
      StaleBatchIsInactive(ss, now);
      saved := if expired != [] then Some(expired) else None;
    }

    /** revokeSession: the first session with the id, once the user confirms,
        is switched off and stamped; the returned batch is what is saved. An
        unknown id or a refusal changes nothing. */
    method RevokeSession(sessionId: string, confirmed: bool, now: int) returns (saved: seq<Session>)
      modifies this
      ensures sessions == Revoke(old(sessions), sessionId, confirmed, now)
      ensures saved == if confirmed && FindSession(old(sessions), sessionId).Some?
        then [sessions[FindSession(old(sessions), sessionId).value]] else []
    {
      var k := FindSession(sessions, sessionId);
      if k.None? || !confirmed {
        return [];
      }
      var s := sessions[k.value].(isActive := false, revokedAt := Some(now));
      sessions := sessions[k.value := s];
      saved := [s];
    }
  }

  /** `sessions.find(s => s.id === id)`, as an index. */
  function FindSession(ss: seq<Session>, id: string): (r: Option<nat>)
    ensures r.Some? ==> r.value < |ss| && ss[r.value].id == id
    ensures r.Some? ==> forall j :: 0 <= j < r.value ==> ss[j].id != id
    ensures r.None? ==> forall j :: 0 <= j < |ss| ==> ss[j].id != id
  {
    if ss == [] then None
    else if ss[0].id == id then Some(0)
    else
      var r := FindSession(ss[1..], id);
      if r.None? then None else Some(r.value + 1)
  }

  /** The list after revokeSession. */
  function Revoke(ss: seq<Session>, id: string, confirmed: bool, now: int): seq<Session> {
    var k := FindSession(ss, id);
    if k.None? || !confirmed then ss
    else ss[k.value := ss[k.value].(isActive := false, revokedAt := Some(now))]
  }

  /** Revoking touches only the first session with the id: it ends inactive with
      the revocation time, and every other session is as it was; an unknown id
      is a no-op. */
  lemma RevokeEffect(ss: seq<Session>, id: string, now: int)
    ensures FindSession(ss, id).None? ==> Revoke(ss, id, true, now) == ss
    ensures Revoke(ss, id, false, now) == ss
    ensures var r := Revoke(ss, id, true, now);
      && |r| == |ss|
      && (forall j :: 0 <= j < |ss| && ss[j].id != id ==> r[j] == ss[j])
      && (FindSession(ss, id).Some? ==>
           var k := FindSession(ss, id).value;
           !r[k].isActive && r[k].revokedAt == Some(now) && r[k].(isActive := true, revokedAt := ss[k].revokedAt) == ss[k].(isActive := true))
  {
  }

  /** Neither the sweep nor a revoke switches a session on. */
  lemma DeactivationOneWay(ss: seq<Session>, id: string, confirmed: bool, now: int)
    ensures forall j :: 0 <= j < |ss| && Revoke(ss, id, confirmed, now)[j].isActive ==> ss[j].isActive
    ensures forall j :: 0 <= j < |ss| && Sweep(ss, now)[j].isActive ==> ss[j].isActive
    ensures |ActiveSessions(Sweep(ss, now))| <= |ActiveSessions(ss)|
  {
    ActiveNotMore(ss, Sweep(ss, now));
  }

  lemma {:induction false} ActiveNotMore(ss: seq<Session>, ts: seq<Session>)
    requires |ss| == |ts|
    requires forall j :: 0 <= j < |ss| && ts[j].isActive ==> ss[j].isActive
    ensures |ActiveSessions(ts)| <= |ActiveSessions(ss)|
  {
    if ss != [] {
      ActiveNotMore(ss[1..], ts[1..]);
    }
  }

  // ---------------------------------------------------------------------------
  // The sharing dialog (AdvancedQRShare)
  // ---------------------------------------------------------------------------

  class AdvancedQrShare {
    var currentBookId: Option<string>
    var shareSession: Option<Session>
    /** The records saveShareSession has written, oldest first. */
    var saved: seq<Session>

    constructor ()
      ensures currentBookId.None? && shareSession.None? && saved == []
    {
      currentBookId := None;
      shareSession := None;
      saved := [];
    }

    /** createShareSession: the new record becomes the current session; then
        the book is encrypted (`encrypted`, encryptBookData's result, None where
        it throws). When that throws, the session stays current without its
        data (the empty string stands for the missing field), nothing is saved
        and the call fails (`ok` is false); otherwise the data is attached and
        the session saved. */
    method CreateShareSession(book: SharedBook, id: string, now: int, maxDownloadsInput: Option<string>,
                              passwordBox: Option<bool>, encrypted: Option<string>)
      returns (ok: bool)
      modifies this
      ensures ok <==> encrypted.Some?
      ensures encrypted.None? ==>
        shareSession == Some(NewSession(book, id, now, maxDownloadsInput, passwordBox, "")) && saved == old(saved)
      ensures encrypted.Some? ==>
        && shareSession == Some(NewSession(book, id, now, maxDownloadsInput, passwordBox, encrypted.value))
        && saved == old(saved) + [shareSession.value]
      ensures currentBookId == old(currentBookId)
    {
      var s := NewSession(book, id, now, maxDownloadsInput, passwordBox,
                          if encrypted.Some? then encrypted.value else "");
      shareSession := Some(s);
      ok := encrypted.Some?;
      if ok {
        saved := saved + [s];
      }
    }

    /** generateNewSession: without a current book nothing happens; otherwise
        the current session is switched off and saved first, and a new one is
        created when the book is found (`book`, the result of getBook); the new
        one is saved only when its encryption succeeds. */
    method GenerateNewSession(book: Option<SharedBook>, id: string, now: int,
                              maxDownloadsInput: Option<string>, passwordBox: Option<bool>, encrypted: Option<string>)
      modifies this
      ensures currentBookId == old(currentBookId)
      ensures old(currentBookId).None? || old(currentBookId) == Some("") ==>
        shareSession == old(shareSession) && saved == old(saved)
      ensures old(currentBookId).Some? && old(currentBookId) != Some("") ==>
        (&& saved == old(saved)
                     + (if old(shareSession).Some? then [Deactivate(old(shareSession).value)] else [])
                     + (if book.Some? && encrypted.Some?
                        then [NewSession(book.value, id, now, maxDownloadsInput, passwordBox, encrypted.value)] else [])
         && shareSession == (if book.Some?
                             then Some(NewSession(book.value, id, now, maxDownloadsInput, passwordBox,
                                                  if encrypted.Some? then encrypted.value else ""))
                             else if old(shareSession).Some? then Some(Deactivate(old(shareSession).value)) else None))
    {
      if currentBookId.None? || currentBookId == Some("") {
        return;
      }
      if shareSession.Some? {
        var off := Deactivate(shareSession.value);
        shareSession := Some(off);
        saved := saved + [off];
      }
      if book.Some? {
        var _ := CreateShareSession(book.value, id, now, maxDownloadsInput, passwordBox, encrypted);
      }
    }
  }

  // ---------------------------------------------------------------------------
  // The import page (import.html's script)
  // ---------------------------------------------------------------------------

  /** What the import page does. `Saved` saves the book and then calls
      updateDownloadCount with the session id, in that order. */
  datatype ImportOutcome =
    | InvalidLink
    | PasswordPrompt
    | PasswordAlert
    | SessionNotFound
    | LimitReached
    | LinkExpired
    | DecryptFailed
    | SessionInactive
    | Saved(book: Record, countedSession: string)

  /** `session.downloadCount >= session.maxDownloads`; a NaN quota compares
      false, so it never stops an import. */
  predicate QuotaUsed(s: Session) {
    s.maxDownloads.Some? && s.downloadCount >= s.maxDownloads.value
  }

  /** `new Date(session.expiresAt) < new Date()`; a missing date is an invalid
      date and compares false. */
  predicate SessionExpired(s: Session, now: int) {
    s.expiresAt.Some? && s.expiresAt.value < now
  }

  /** processImport: the loaded session (loadShareSession's result), the
      password given, the clock and the AES decryption. */
  function ProcessImport(session: Option<Session>, password: Option<string>, now: int,
                         decrypt: string -> Option<Record>): (r: ImportOutcome)
    ensures r.Saved? ==> session.Some? && !QuotaUsed(session.value) && !SessionExpired(session.value, now)
    ensures r.Saved? ==> session.Some? && (session.value.passwordProtected ==> password.Some? && password.value != "")
    ensures r.Saved? ==> session.Some? && r.countedSession == session.value.id
    ensures r.Saved? ==> session.Some? && decrypt(session.value.encryptedData) == Some(r.book)
  {
    if session.None? then SessionNotFound
    else
      var s := session.value;
      if s.passwordProtected && (password.None? || password.value == "") then PasswordPrompt
      else if QuotaUsed(s) then LimitReached
      else if SessionExpired(s, now) then LinkExpired
      else
        match decrypt(s.encryptedData)
        case None => DecryptFailed
        case Some(book) => Saved(book, s.id)
  }

  /** The checks run in order: the password prompt comes before the quota, the
      quota before the expiry. */
  lemma ImportCheckOrder(s: Session, password: Option<string>, now: int, decrypt: string -> Option<Record>)
    ensures s.passwordProtected && password.None? ==> ProcessImport(Some(s), password, now, decrypt) == PasswordPrompt
    ensures !s.passwordProtected && QuotaUsed(s) ==> ProcessImport(Some(s), password, now, decrypt) == LimitReached
    ensures !s.passwordProtected && !QuotaUsed(s) && SessionExpired(s, now) ==>
      ProcessImport(Some(s), password, now, decrypt) == LinkExpired
    ensures ProcessImport(None, password, now, decrypt) == SessionNotFound
  {
  }

  /** initImport and the password form: no session parameter is an invalid
      link; p=1 shows the prompt; an empty password is refused with an alert. */
  function InitImport(sessionParam: Option<string>, pParam: Option<string>, session: Option<Session>,
                      now: int, decrypt: string -> Option<Record>): (r: ImportOutcome)
    ensures sessionParam.None? || sessionParam == Some("") ==> r == InvalidLink
    ensures sessionParam.Some? && sessionParam != Some("") && pParam == Some("1") ==> r == PasswordPrompt
  {
    if sessionParam.None? || sessionParam == Some("") then InvalidLink
    else if pParam == Some("1") then PasswordPrompt
    else ProcessImport(session, None, now, decrypt)
  }

  function SubmitPassword(password: string, session: Option<Session>, now: int,
                          decrypt: string -> Option<Record>): (r: ImportOutcome)
    ensures password == "" ==> r == PasswordAlert
    ensures password != "" ==> r == ProcessImport(session, Some(password), now, decrypt)
  {
    if password == "" then PasswordAlert else ProcessImport(session, Some(password), now, decrypt)
  }

  /** As written, a switched-off session (revoked, swept or replaced) still
      gives its book away: processImport never reads isActive. */
  lemma RevokedSessionStillImports(decrypt: string -> Option<Record>)
    requires decrypt("data").Some?
    ensures var s := Session("sess_1", "b", "T", "A", "txt", 0, Some(DayMs), Some(10), false, 0, false, Some(1), "data");
      !s.isActive && ProcessImport(Some(s), None, 2, decrypt).Saved?
  {
  }

  /** processImport with the active flag checked right after the session is
      found. */
  function ProcessImportActiveOnly(session: Option<Session>, password: Option<string>, now: int,
                                   decrypt: string -> Option<Record>): (r: ImportOutcome)
    ensures r.Saved? ==> session.Some? && session.value.isActive
    ensures session.Some? && session.value.isActive ==> r == ProcessImport(session, password, now, decrypt)
  {
    if session.Some? && !session.value.isActive then SessionInactive
    else ProcessImport(session, password, now, decrypt)
  }

  /** With the flag checked, nothing the sweep, a revoke or a regeneration
      switched off can be imported. */
  lemma SweptSessionRefused(ss: seq<Session>, i: nat, now: int, password: Option<string>,
                            decrypt: string -> Option<Record>)
    requires i < |ss| && IsStale(ss[i], now)
    ensures !ProcessImportActiveOnly(Some(Sweep(ss, now)[i]), password, now, decrypt).Saved?
  {
  }
}
