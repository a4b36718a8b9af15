/** The announcement records of the router, the request bodies its handlers
    accept, and the pure rules the handlers apply: the active-window test,
    the date checks of `create` and `update`, the partial-update merge, the
    newest-first order and the id syntax. */
module Announcements {
  import opened StringOrder
  import opened IsoDate
  import opened Sequences

  /** A stored announcement document. Its id is the key it is stored under.
      `created_at` may be missing from a document, and so may the dates. */
  datatype Announcement = Announcement(
    message: string,
    startDate: Option<string>,
    expirationDate: Option<string>,
    createdBy: string,
    createdAt: Option<string>)

  /** An announcement as the handlers return it: its id as a string beside
      the document's fields. */
  datatype Listed = Listed(id: string, record: Announcement)

  /** The outcome of a handler: the value it returns, or the kind of error it
      raises (401, 400 with its detail text, 404). */
  datatype Response<+T> = Ok(value: T) | Unauthorized | InvalidArgument(detail: string) | NotFound

  /** The body of a create request (`AnnouncementCreate`). */
  datatype NewAnnouncement = NewAnnouncement(
    message: string,
    startDate: Option<string>,
    expirationDate: string,
    createdBy: string)

  /** The body of an update request (`AnnouncementUpdate`): every field optional. */
  datatype AnnouncementPatch = AnnouncementPatch(
    message: Option<string>,
    startDate: Option<string>,
    expirationDate: Option<string>)

  const INVALID_DATE_FORMAT := "Invalid date format"
  const START_AFTER_EXPIRATION := "Start date must be before expiration date"
  const INVALID_ID := "Invalid announcement ID"
  const DELETED := "Announcement deleted successfully"

  /** The field constraint on `message`: 1 to 500 characters. */
  predicate MessageFits(m: string)
  {
    1 <= |m| <= 500
  }

  predicate ValidPatch(p: AnnouncementPatch)
  {
    p.message.Some? ==> MessageFits(p.message.value)
  }

  /** Python truthiness of an optional string: present and non-empty. */
  predicate Present(s: Option<string>)
  {
    s.Some? && s.value != ""
  }

  // ---------------------------------------------------------------------------
  // The active filter

  /** The activity test on the stored strings, against today's `YYYY-MM-DD` text:
      started when there is no start date or it is not after today, and not
      expired when there is an expiration date and it is not before today. */
  predicate IsActive(a: Announcement, today: string)
    ensures IsActive(a, today) ==> Present(a.expirationDate)
    ensures Present(a.expirationDate) && !StrLe(today, a.expirationDate.value) ==> !IsActive(a, today)
    ensures !Present(a.startDate) && Present(a.expirationDate) && StrLe(today, a.expirationDate.value) ==>
      IsActive(a, today)
  {
    && (!Present(a.startDate) || StrLe(a.startDate.value, today))
    && (Present(a.expirationDate) && StrLe(today, a.expirationDate.value))
  }

  /** The records of a scan that pass the activity test, in scan order. */
  function FilterActive(xs: seq<Listed>, today: string): (r: seq<Listed>)
    ensures |r| <= |xs|
    ensures forall k :: 0 <= k < |r| ==> IsActive(r[k].record, today)
  {
    if |xs| == 0 then []
    else
      var last := xs[|xs| - 1];
      FilterActive(xs[..|xs| - 1], today) + (if IsActive(last.record, today) then [last] else [])
  }

  lemma {:induction false} FilterActiveMembers(xs: seq<Listed>, today: string, x: Listed)
    ensures x in FilterActive(xs, today) <==> x in xs && IsActive(x.record, today)
  {
    if |xs| > 0 {
      FilterActiveMembers(xs[..|xs| - 1], today, x);
      assert xs == xs[..|xs| - 1] + [xs[|xs| - 1]];
    }
  }

  lemma {:induction false} FilterActiveIsSubsequence(xs: seq<Listed>, today: string)
    ensures IsSubsequence(FilterActive(xs, today), xs)
  {
    if |xs| > 0 {
      var init := xs[..|xs| - 1];
      FilterActiveIsSubsequence(init, today);
      var r := FilterActive(xs, today);
      if IsActive(xs[|xs| - 1].record, today) {
        assert r[..|r| - 1] == FilterActive(init, today);
      } else if |r| > 0 {
        assert r == FilterActive(init, today);
      }
    }
  }

  /** A date field whose text, when present, is a real `YYYY-MM-DD` date. */
  predicate DateFieldParses(s: Option<string>)
  {
    Present(s) ==> ParseDate(s.value).Some?
  }

  /** Read as calendar dates, the activity test is the date window
      start <= today <= expiration, where a missing start is no bound and a
      missing expiration admits no day at all. */
  lemma ActiveMeansWithinWindow(a: Announcement, today: Date)
    requires ValidDate(today)
    requires DateFieldParses(a.startDate) && DateFieldParses(a.expirationDate)
    ensures IsActive(a, FormatDate(today)) <==>
      && (!Present(a.startDate) || DateLe(ParseDate(a.startDate.value).value, today))
      && Present(a.expirationDate)
      && DateLe(today, ParseDate(a.expirationDate.value).value)
  {
    var t := FormatDate(today);
    ParseFormat(today);
    if Present(a.startDate) {
      ParsedOrderIsStringOrder(a.startDate.value, t);
    }
    if Present(a.expirationDate) {
      ParsedOrderIsStringOrder(t, a.expirationDate.value);
    }
  }

  /** The window reading needs the `YYYY-MM-DD` form. A start date written
      with a time of day is not started on its own day: "2025-10-11T08:00"
      is above "2025-10-11" as text. */
  lemma TimedStartNotStartedOnItsDay()
    ensures !IsActive(Announcement("m", Some("2025-10-11T08:00"), Some("2025-10-12"), "u", None), "2025-10-11")
  {
    assert !StrLe("2025-10-11T08:00", "2025-10-11") by {
      assert "2025-10-11T08:00"[10..] == "T08:00";
    }
  }

  /** An expiration in the basic form "20251001", ten days before today,
      still passes the text test against "2025-10-11", since '-' is below '1'. */
  lemma BasicFormatExpirationNotExpired()
    ensures IsActive(Announcement("m", None, Some("20251001"), "u", None), "2025-10-11")
  {
    assert StrLe("2025-10-11", "20251001") by {
      assert "2025-10-11"[4] == '-' && "20251001"[4] == '1';
    }
  }

  // ---------------------------------------------------------------------------
  // Date checks

  /** The check `create` runs: the expiration date must parse, then a
      non-empty start date must parse and must not come after it. The result
      is the detail text of the error raised, if any. */
  function CheckCreateDates(start: Option<string>, expiration: string): (err: Option<string>)
    ensures err.None? <==>
      ParseDate(expiration).Some? && DateFieldParses(start)
      && (Present(start) ==> DateLe(ParseDate(start.value).value, ParseDate(expiration).value))
    ensures err == Some(INVALID_DATE_FORMAT) <==>
      ParseDate(expiration).None? || !DateFieldParses(start)
    ensures err == Some(START_AFTER_EXPIRATION) <==>
      && ParseDate(expiration).Some? && Present(start) && ParseDate(start.value).Some?
      && !DateLe(ParseDate(start.value).value, ParseDate(expiration).value)
  {
    match ParseDate(expiration)
    case None => Some(INVALID_DATE_FORMAT)
    case Some(e) =>
      if Present(start) then
        match ParseDate(start.value)
        case None => Some(INVALID_DATE_FORMAT)
        case Some(s) => if DateLe(s, e) then None else Some(START_AFTER_EXPIRATION)
      else None
  }

  /** The check `update` runs on the effective dates: each non-empty date must
      parse, and when both are non-empty the start must not come after the
      expiration. */
  function CheckEffectiveDates(start: Option<string>, expiration: Option<string>): (err: Option<string>)
    ensures err.None? <==> DatesConsistent(start, expiration)
    ensures err == Some(INVALID_DATE_FORMAT) <==> !DateFieldParses(start) || !DateFieldParses(expiration)
    ensures err == Some(START_AFTER_EXPIRATION) <==>
      && DateFieldParses(start) && DateFieldParses(expiration) && Present(start) && Present(expiration)
      && !DateLe(ParseDate(start.value).value, ParseDate(expiration.value).value)
  {
    if Present(start) && ParseDate(start.value).None? then Some(INVALID_DATE_FORMAT)
    else if Present(expiration) && ParseDate(expiration.value).None? then Some(INVALID_DATE_FORMAT)
    else if Present(start) && Present(expiration)
      && !DateLe(ParseDate(start.value).value, ParseDate(expiration.value).value)
    then Some(START_AFTER_EXPIRATION)
    else None
  }

  /** The date invariant of a stored announcement: every non-empty date parses
      and, when both are non-empty, the start is not after the expiration. */
  predicate DatesConsistent(start: Option<string>, expiration: Option<string>)
  {
    && DateFieldParses(start)
    && DateFieldParses(expiration)
    && (Present(start) && Present(expiration) ==>
          DateLe(ParseDate(start.value).value, ParseDate(expiration.value).value))
  }

  /** On a non-empty expiration, `create` and `update` apply the same check,
      and raise the same error. */
  lemma CreateCheckIsEffectiveCheck(start: Option<string>, expiration: string)
    requires expiration != ""
    ensures CheckCreateDates(start, expiration) == CheckEffectiveDates(start, Some(expiration))
  {
  }

  /** An empty expiration is where the two checks differ: `create` rejects it,
      while `update` accepts it whenever the effective start date is acceptable. */
  lemma EmptyExpirationDiffers(start: Option<string>)
    requires DateFieldParses(start)
    ensures CheckCreateDates(start, "") == Some(INVALID_DATE_FORMAT)
    ensures CheckEffectiveDates(start, Some("")) == None
  {
    assert !IsIsoShape("");
  }

  /** What a stored announcement looks like whenever it was written by `create`
      and `update`. */
  predicate WellFormed(a: Announcement)
  {
    MessageFits(a.message) && DatesConsistent(a.startDate, a.expirationDate) && a.createdAt.Some?
  }

  // ---------------------------------------------------------------------------
  // Create and update

  /** The document `create` inserts: the request's fields and its creation time. */
  function NewRecord(req: NewAnnouncement, now: string): Announcement
  {
    Announcement(req.message, req.startDate, Some(req.expirationDate), req.createdBy, Some(now))
  }

  /** A document created after a passing check satisfies the record invariant. */
  lemma CreatedIsWellFormed(req: NewAnnouncement, now: string)
    requires MessageFits(req.message)
    requires CheckCreateDates(req.startDate, req.expirationDate).None?
    ensures WellFormed(NewRecord(req, now))
  {
  }

  /** The value a field holds after an update: the supplied one, else the stored one. */
  function Effective<T>(supplied: Option<T>, stored: T): T
  {
    if supplied.Some? then supplied.value else stored
  }

  /** The same for an optional date field: `update_doc.get(field, stored)`. */
  function EffectiveDate(supplied: Option<string>, stored: Option<string>): (r: Option<string>)
    ensures supplied.Some? ==> r == supplied
    ensures supplied.None? ==> r == stored
  {
    if supplied.Some? then supplied else stored
  }

  /** The `$set` of an update: each supplied field replaces the stored one;
      fields not supplied and the fields an update cannot name stay as stored. */
  function Merge(a: Announcement, p: AnnouncementPatch): (m: Announcement)
    ensures m.message == Effective(p.message, a.message)
    ensures m.startDate == EffectiveDate(p.startDate, a.startDate)
    ensures m.expirationDate == EffectiveDate(p.expirationDate, a.expirationDate)
    ensures m.createdBy == a.createdBy && m.createdAt == a.createdAt
  {
    a.(message := Effective(p.message, a.message),
       startDate := EffectiveDate(p.startDate, a.startDate),
       expirationDate := EffectiveDate(p.expirationDate, a.expirationDate))
  }

  /** An update that supplies nothing changes nothing. */
  lemma MergeEmpty(a: Announcement)
    ensures Merge(a, AnnouncementPatch(None, None, None)) == a
  {
  }

  /** Applying the same update twice is applying it once. */
  lemma MergeIdempotent(a: Announcement, p: AnnouncementPatch)
    ensures Merge(Merge(a, p), p) == Merge(a, p)
  {
  }

  /** The later of two patches wins field by field. */
  function Combine(p: AnnouncementPatch, q: AnnouncementPatch): AnnouncementPatch
  {
    AnnouncementPatch(
      if q.message.Some? then q.message else p.message,
      if q.startDate.Some? then q.startDate else p.startDate,
      if q.expirationDate.Some? then q.expirationDate else p.expirationDate)
  }

  /** Two updates in a row are one update by the combined patch. */
  lemma MergeCombine(a: Announcement, p: AnnouncementPatch, q: AnnouncementPatch)
    ensures Merge(Merge(a, p), q) == Merge(a, Combine(p, q))
  {
  }

  /** An update whose check passes keeps the record invariant, whatever the
      stored record's dates were. */
  lemma UpdateKeepsWellFormed(a: Announcement, p: AnnouncementPatch)
    requires ValidPatch(p) && MessageFits(a.message) && a.createdAt.Some?
    requires CheckEffectiveDates(Merge(a, p).startDate, Merge(a, p).expirationDate).None?
    ensures WellFormed(Merge(a, p))
  {
  }

  /** Changing only the start date is still checked against the stored
      expiration: a start after it is refused. */
  lemma StartOnlyUpdateChecksStoredExpiration(a: Announcement, start: string)
    requires Present(a.expirationDate) && ParseDate(a.expirationDate.value).Some?
    requires ParseDate(start).Some?
    requires !DateLe(ParseDate(start).value, ParseDate(a.expirationDate.value).value)
    ensures
      var m := Merge(a, AnnouncementPatch(None, Some(start), None));
      CheckEffectiveDates(m.startDate, m.expirationDate) == Some(START_AFTER_EXPIRATION)
  {
  }

  /** Changing only the expiration is still checked against the stored
      start date: the update passes exactly when the stored start is not
      after the new expiration, and is refused with the start-after-expiration
      detail otherwise. */
  lemma ExpirationOnlyUpdateChecksStoredStart(a: Announcement, expiration: string)
    requires Present(a.startDate) && ParseDate(a.startDate.value).Some?
    requires ParseDate(expiration).Some?
    ensures
      var m := Merge(a, AnnouncementPatch(None, None, Some(expiration)));
      CheckEffectiveDates(m.startDate, m.expirationDate)
        == if DateLe(ParseDate(a.startDate.value).value, ParseDate(expiration).value)
           then None else Some(START_AFTER_EXPIRATION)
  {
  }

  // ---------------------------------------------------------------------------
  // Newest-first order

  /** The sort key of `list_all`: `created_at`, or "" when it is missing. */
  function CreatedKey(x: Listed): (k: string)
    ensures x.record.createdAt.Some? ==> k == x.record.createdAt.value
    ensures x.record.createdAt.None? ==> forall s :: StrLe(k, s)
  {
    if x.record.createdAt.Some? then x.record.createdAt.value else ""
  }

  predicate KeyNotAbove(x: Listed, y: Listed)
  {
    StrLe(CreatedKey(x), CreatedKey(y))
  }

  /** Each record's key is not above the key of the record before it. */
  predicate NewestFirst(s: seq<Listed>)
  {
    forall k :: 0 < k < |s| ==> KeyNotAbove(s[k], s[k - 1])
  }

  /** A newest-first sequence is ordered between any two positions. */
  lemma {:induction false} NewestFirstPairwise(s: seq<Listed>, p: int, q: int)
    requires NewestFirst(s) && 0 <= p <= q < |s|
    ensures StrLe(CreatedKey(s[q]), CreatedKey(s[p]))
  {
    if p == q {
      StrLeReflexive(CreatedKey(s[p]));
    } else {
      NewestFirstPairwise(s, p, q - 1);
      StrLeTransitive(CreatedKey(s[q]), CreatedKey(s[q - 1]), CreatedKey(s[p]));
    }
  }

  /** Records without `created_at` come last: everything after one of them
      has no creation time either (or an empty one). */
  lemma MissingCreatedAtLast(s: seq<Listed>, p: int, q: int)
    requires NewestFirst(s) && 0 <= p < q < |s|
    requires s[p].record.createdAt.None?
    ensures CreatedKey(s[q]) == ""
  {
    NewestFirstPairwise(s, p, q);
    StrLeEmpty(CreatedKey(s[q]));
  }

  // ---------------------------------------------------------------------------
  // Ids

  predicate IsHexDigit(c: char)
  {
    ('0' <= c <= '9') || ('a' <= c <= 'f') || ('A' <= c <= 'F')
  }

  /** The string form `ObjectId(...)` accepts: 24 hexadecimal digits, in
      either case; whether a string is accepted does not depend on the case
      of its letters. */
  predicate ValidId(s: string)
    ensures ValidId(s) <==> |s| == 24 && forall i :: 0 <= i < |s| ==> IsHexDigit(LowerHex(s[i]))
  {
    |s| == 24 && forall i :: 0 <= i < |s| ==> IsHexDigit(s[i])
  }

  /** The value 0..15 of a hexadecimal digit, in either case. */
  function HexValue(c: char): (v: int)
    requires IsHexDigit(c)
    ensures 0 <= v < 16
  {
    if '0' <= c <= '9' then c as int - '0' as int
    else if 'a' <= c <= 'f' then c as int - 'a' as int + 10
    else c as int - 'A' as int + 10
  }

  function LowerHex(c: char): (d: char)
    ensures IsHexDigit(c) ==> IsHexDigit(d) && !('A' <= d <= 'F')
  {
    if 'A' <= c <= 'F' then (c as int - 'A' as int + 'a' as int) as char else c
  }

  /** The stored key of an id: `str(ObjectId(s))`, the lower-case form, so
      that ids differing only in the case of their hex digits name the same
      record. */
  function IdKey(s: string): (k: string)
    ensures |k| == |s|
    ensures ValidId(s) ==> ValidId(k) && forall i :: 0 <= i < |k| ==> !('A' <= k[i] <= 'F')
    ensures forall i :: 0 <= i < |s| && !('A' <= s[i] <= 'F') ==> k[i] == s[i]
    ensures ValidId(s) ==> forall i :: 0 <= i < |s| ==> HexValue(k[i]) == HexValue(s[i])
  {
    seq(|s|, i requires 0 <= i < |s| => LowerHex(s[i]))
  }

  /** A key as the store hands them out: a valid id in lower case. */
  predicate IsStoredId(s: string)
  {
    ValidId(s) && IdKey(s) == s
  }

  /** The key of a valid id is a stored-id form, and a stored id is its own key. */
  lemma IdKeyCanonical(s: string)
    requires ValidId(s)
    ensures IsStoredId(IdKey(s))
  {
    var k := IdKey(s);
    assert forall i :: 0 <= i < |k| ==> IdKey(k)[i] == k[i];
  }

  /** Two valid ids name the same record exactly when they spell the same
      twelve bytes, whatever the case of their letters. */
  lemma SameKeyIffSameDigits(s: string, t: string)
    requires ValidId(s) && ValidId(t)
    ensures IdKey(s) == IdKey(t) <==> forall i :: 0 <= i < 24 ==> HexValue(s[i]) == HexValue(t[i])
  {
    var ks, kt := IdKey(s), IdKey(t);
    if forall i :: 0 <= i < 24 ==> HexValue(s[i]) == HexValue(t[i]) {
      forall i | 0 <= i < 24
        ensures ks[i] == kt[i]
      {
        assert HexValue(ks[i]) == HexValue(kt[i]);
      }
    }
  }

  // ---------------------------------------------------------------------------
  // The scan

  /** The records of a table listed in the store's scan order. */
  function ScanOf(order: seq<string>, records: map<string, Announcement>): (r: seq<Listed>)
    requires forall i :: 0 <= i < |order| ==> order[i] in records
    ensures |r| == |order|
    ensures forall i :: 0 <= i < |order| ==> r[i] == Listed(order[i], records[order[i]])
  {
    if |order| == 0 then []
    else ScanOf(order[..|order| - 1], records) + [Listed(order[|order| - 1], records[order[|order| - 1]])]
  }
}
