# Announcements router — a Dafny model

This project models the announcement endpoints of a school activities
backend (`src/backend/routers/announcements.py`). The router keeps
time-bounded announcements in a document collection and serves five
handlers:

- `get_active_announcements` is public. It returns the announcements whose
  date window contains today. It compares the stored `YYYY-MM-DD` strings
  with today's `date.isoformat()` text.
- `get_all_announcements` lists every announcement for a known teacher,
  newest `created_at` first.
- `create_announcement` checks the creator and the dates, then inserts a new document.
- `update_announcement` checks the caller, the id, the existence of the
  document and the *effective* dates after a partial update, then writes
  the merge.
- `delete_announcement` checks the caller and the id, then removes the document.

The model has five modules:

- `StringOrder`: Python's `<=` on `str`, proved to be a total order, and
  the order of digit strings.
- `IsoDate`: calendar dates. `ParseDate` accepts exactly the `YYYY-MM-DD`
  strings (the extended format of section 5.2.1.1 of ISO 8601) that name a real day, and
  `FormatDate` is `date.isoformat()`. They are proved inverse to each other.
  On those strings, string order is proved to be chronological order.
- `Sequences`: the subsequence relation and the removal of one id from the scan order.
- `Announcements`: the stored document, the request bodies, the error kinds
  (`Ok`, `Unauthorized`, `InvalidArgument(detail)`, `NotFound`), and the pure
  rules with their lemmas. The rules are the activity test, the create check,
  the effective-date check, the merge, the newest-first order and id syntax.
- `AnnouncementRouter`: the class `AnnouncementTable`. It holds the known
  teachers, the stored documents (a `map` from id to document) and their
  scan order (a `seq` of ids). Its five methods are the handlers, plus the
  in-place insertion sort that `list_all` runs.

Each of the four authenticated handlers (`ListAll`, `Create`, `Update`,
`Delete`) returns `Unauthorized` before it looks at anything else when
the caller is not a known teacher; `GetActive` has no caller check. Every
handler leaves the table untouched on every error. The record invariant `WellFormed` is preserved by every
handler. It says that the message has 1 to 500 characters, every non-empty
date parses, a non-empty start is not after a non-empty expiration, and
`created_at` is set.

The clock is a parameter. `GetActive` takes today's date. `Create` takes
the `created_at` text and the id that the store assigns to the new document.

Three behaviours of the code a reader might not expect:

- `update` accepts `expiration_date: ""`. Its check skips empty dates, so
  the stored record is left with no expiration and is never active.
  `EmptyExpirationDiffers` shows that `create` rejects the same value.
- A start date of `""` counts as no start date, both in `create` and in the
  active filter.
- The date check of `update` runs on every update, even one that only
  changes the message. So a stored record with a bad date cannot have its
  message edited until the date is fixed too.

## Model

| member | source | states |
|---|---|---|
| `StringOrder.StrLe` | src/backend/routers/announcements.py:64-65 | Python's `str <=`: a prefix is below every extension of it, and `a <= b` forces the first characters into order |
| `StringOrder.StrLeReflexive` | src/backend/routers/announcements.py:98 | every sort key is `<=` itself |
| `StringOrder.StrLeAntisymmetric` | src/backend/routers/announcements.py:98 | two keys each `<=` the other are equal |
| `StringOrder.StrLeTransitive` | src/backend/routers/announcements.py:98 | the string order used for sorting is transitive |
| `StringOrder.StrLeTotal` | src/backend/routers/announcements.py:98 | any two keys are comparable, so the sort order is total |
| `StringOrder.StrLeEmpty` | src/backend/routers/announcements.py:98 | the default key `""` is below every other key and only `""` is below it |
| `StringOrder.StrLeConcat` | src/backend/routers/announcements.py:64-65 | strings with equal-length first blocks compare on the blocks first, and on the rest only when the blocks are equal |
| `StringOrder.DigitsOrder` | src/backend/routers/announcements.py:64-65 | equal-length digit strings compare as their numeric values, and are equal iff their values are |
| `IsoDate.DaysInMonth` | src/backend/routers/announcements.py:122 | month lengths are 28 to 31 days, and 29 exactly for February of a leap year |
| `IsoDate.ParseDate` | src/backend/routers/announcements.py:122-124 | a parse succeeds only on a `YYYY-MM-DD` string and yields a valid calendar date; every such string naming a real day parses to its fields |
| `IsoDate.FormatDate` | src/backend/routers/announcements.py:48 | `isoformat()` of a date has the `YYYY-MM-DD` shape |
| `IsoDate.ParseFormat` | src/backend/routers/announcements.py:48 | parsing today's `isoformat()` text gives back today's date |
| `IsoDate.FormatParse` | src/backend/routers/announcements.py:122-124 | every string that parses is exactly the `isoformat()` text of its date |
| `IsoDate.IsoOrderIsChronological` | src/backend/routers/announcements.py:64-65 | on `YYYY-MM-DD` strings, string `<=` holds iff the dates are in chronological order |
| `IsoDate.ParsedOrderIsStringOrder` | src/backend/routers/announcements.py:125 | for parsed dates, the date comparison of `create`/`update` agrees with the string comparison of the active filter |
| `Sequences.Without` | src/backend/routers/announcements.py:258 | removing an id from the scan order keeps exactly the other ids |
| `Sequences.WithoutIsSubsequence` | src/backend/routers/announcements.py:258 | after a delete the remaining ids keep their scan order |
| `Sequences.WithoutKeepsDistinct` | src/backend/routers/announcements.py:258 | after a delete the scan still lists each id once |
| `Announcements.IsActive` | src/backend/routers/announcements.py:64-65 | a record without a (non-empty) expiration is never active; one whose expiration text is below today is not active whatever its start; one without a start whose expiration is not below today is active |
| `Announcements.FilterActive` | src/backend/routers/announcements.py:53-68 | the loop's result is no longer than the scan and holds only records that pass the activity test |
| `Announcements.FilterActiveMembers` | src/backend/routers/announcements.py:60-68 | a record is in the active list iff it is stored and (start absent/empty or start <= today) and (expiration present, non-empty and >= today) |
| `Announcements.FilterActiveIsSubsequence` | src/backend/routers/announcements.py:53-70 | the active list is a subsequence of the scan, in scan order |
| `Announcements.ActiveMeansWithinWindow` | src/backend/routers/announcements.py:48-68 | for `YYYY-MM-DD` dates, the string test equals the calendar window start <= today <= expiration; a missing expiration is never active |
| `Announcements.TimedStartNotStartedOnItsDay` | src/backend/routers/announcements.py:64 | a start date stored with a time of day (`2025-10-11T08:00`) fails the text test on that very day |
| `Announcements.BasicFormatExpirationNotExpired` | src/backend/routers/announcements.py:65 | an expiration stored in basic form (`20251001`) ten days before today still passes the text test |
| `Announcements.CheckCreateDates` | src/backend/routers/announcements.py:120-131 | create passes iff the expiration parses, a non-empty start parses, and start <= expiration; "Invalid date format" iff one of those dates does not parse; "Start date must be before expiration date" iff both parse and start > expiration |
| `Announcements.CheckEffectiveDates` | src/backend/routers/announcements.py:192-216 | the update check passes exactly when the dates satisfy the stored-date invariant; "Invalid date format" iff a non-empty effective date does not parse; "Start date must be before expiration date" iff both are non-empty, parse, and start > expiration |
| `Announcements.CreateCheckIsEffectiveCheck` | src/backend/routers/announcements.py:122-129 | for a non-empty expiration, create's check and update's check give the same outcome |
| `Announcements.EmptyExpirationDiffers` | src/backend/routers/announcements.py:205-207 | an empty expiration is refused by create but accepted by update |
| `Announcements.CreatedIsWellFormed` | src/backend/routers/announcements.py:120-140 | a document created after a passing check satisfies the record invariant |
| `Announcements.Merge` | src/backend/routers/announcements.py:184-199 | each supplied field replaces the stored one, an absent field keeps it, and `created_by`/`created_at` are untouched |
| `Announcements.MergeEmpty` | src/backend/routers/announcements.py:184-190 | an update supplying no field leaves the document as it is |
| `Announcements.MergeIdempotent` | src/backend/routers/announcements.py:219-222 | applying the same update twice equals applying it once |
| `Announcements.MergeCombine` | src/backend/routers/announcements.py:219-222 | two updates in a row equal one update by the field-wise later patch |
| `Announcements.UpdateKeepsWellFormed` | src/backend/routers/announcements.py:192-222 | an update whose effective-date check passes keeps the record invariant |
| `Announcements.StartOnlyUpdateChecksStoredExpiration` | src/backend/routers/announcements.py:194-214 | changing only the start date to a day after the stored expiration is refused |
| `Announcements.ExpirationOnlyUpdateChecksStoredStart` | src/backend/routers/announcements.py:194-214 | changing only the expiration is checked against the stored start: it passes iff the stored start is not after the new expiration, else "Start date must be before expiration date" |
| `Announcements.CreatedKey` | src/backend/routers/announcements.py:98 | the sort key is `created_at` when present; a missing one gives a key below every string |
| `Announcements.NewestFirstPairwise` | src/backend/routers/announcements.py:98 | in a newest-first listing every later record's key is <= every earlier one's |
| `Announcements.MissingCreatedAtLast` | src/backend/routers/announcements.py:98 | every record after one without `created_at` has an empty key, so those records sort last |
| `Announcements.ValidId` | src/backend/routers/announcements.py:174-177 | `ObjectId(...)` accepts a string of exactly 24 hexadecimal digits; acceptance is the same for the string with its letters lowered |
| `Announcements.IdKey` | src/backend/routers/announcements.py:175 | the key of a valid id is a valid id with no upper-case hex letter, each character of the same hex value as the id's, and digits and lower-case letters are kept as they are |
| `Announcements.SameKeyIffSameDigits` | src/backend/routers/announcements.py:174-179 | two valid ids get the same key, and so name the same record, iff their digits have the same hex values position by position, whatever their letter case |
| `Announcements.IdKeyCanonical` | src/backend/routers/announcements.py:175-179 | the key of a valid id is a valid lower-case id, the form the store hands out |
| `Announcements.ScanOf` | src/backend/routers/announcements.py:51 | the scan lists, position by position, each id of the scan order with its stored document |
| `AnnouncementRouter.SortNewestFirst` | src/backend/routers/announcements.py:98 | the in-place sort leaves the array newest first and a permutation of what it was |
| `AnnouncementRouter.InsertNewest` | src/backend/routers/announcements.py:98 | one insertion step extends the newest-first prefix by one element, permuting the array |
| `AnnouncementRouter.AnnouncementTable.Scan` | src/backend/routers/announcements.py:90 | the scan has one entry per stored id |
| `AnnouncementRouter.AnnouncementTable.GetActive` | src/backend/routers/announcements.py:41-74 | the result is the filter of the scan by the activity test against today's `isoformat()` text; there is no error outcome |
| `AnnouncementRouter.AnnouncementTable.ListAll` | src/backend/routers/announcements.py:77-100 | unknown caller: `Unauthorized`; otherwise a newest-first permutation of all stored documents |
| `AnnouncementRouter.AnnouncementTable.Create` | src/backend/routers/announcements.py:108-149 | `Unauthorized` first, then the create check's 400 with the table unchanged; on success exactly one new document under the fresh id, appended to the scan, carrying the request's message, start date, expiration and creator, and `created_at == now` |
| `AnnouncementRouter.AnnouncementTable.Update` | src/backend/routers/announcements.py:157-229 | `Unauthorized`, then invalid id (400), then `NotFound`, then the effective-date check, with no write on any error; on success only that key changes, to the merge |
| `AnnouncementRouter.AnnouncementTable.Delete` | src/backend/routers/announcements.py:237-263 | `Unauthorized`, then invalid id (400), then `NotFound` with the table unchanged; on success exactly that key is removed, and the scan keeps the others |
| `AnnouncementRouter.CreateThenListAll` | src/backend/routers/announcements.py:133-149 | a document created by a known teacher appears in the next listing, with its id and fields |

## Left out

- HTTP routing, `Query(...)` binding, `async`, and the status codes. The
  error kinds are the `Response` datatype, and `InvalidArgument` carries the
  detail text.
- The `except Exception` branches (500 responses, logging, and `[]` from
  `get_active_announcements`). They only react to store failures, and the
  in-memory table has none. `GetActive` has no error outcome at all.
- The renaming of `_id` to a string `id` on every returned document. Ids are
  stored as their string form, and results pair the id with the document.
- `datetime.now()`. Today's date and the `created_at` text are parameters.
- `Announcements.ActiveMeansWithinWindow`: holds only for dates in the `YYYY-MM-DD` form. `create` and `update` also accept and store the other forms `datetime.fromisoformat` parses, and for those the text comparison of the active filter is not chronological (`TimedStartNotStartedOnItsDay`, `BasicFormatExpirationNotExpired`).
- `IsoDate.ParseDate`: accepts only the `YYYY-MM-DD` form. Python's
  `datetime.fromisoformat` also accepts other ISO forms, such as a date
  followed by a time. Such strings would be stored as sent and compared as
  text by the active filter.
- Id generation by the store. `Create` takes the new id as a parameter that
  must be a lower-case valid id not yet in the table.
- `Announcements.ValidId`: 24 hexadecimal digits. It does not model that
  `bytes.fromhex` inside ObjectId parsing also skips whitespace.
- The message length limit (1 to 500 characters) is enforced by the request
  model, not by the handlers. It is a precondition of `Create` and `Update`.
- The collection's natural order is modelled as insertion order with deleted
  ids removed.
- Documents written by other programs can hold values of other types, such
  as a `created_at` of `None`, which makes the sort fail with a 500. In the
  model every field is a string or absent.
- `AnnouncementRouter.AnnouncementTable.ListAll`: does not state that records
  with equal `created_at` keep their scan order, although Python's sort is
  stable; the contract promises only newest-first order.
- Concurrent requests. Every handler runs as one step on the table.
