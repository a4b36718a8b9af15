/** The announcements router over an in-memory collection: the five handlers
    as methods of a table object that holds the stored documents, their scan
    order, and the set of known users the authorization check consults. */
module AnnouncementRouter {
  import opened StringOrder
  import opened IsoDate
  import opened Sequences
  import opened Announcements

  /** Insertion sort of a listing into newest-first order, in place, as
      `list.sort(key=created_at, reverse=True)` does. */
  method SortNewestFirst(a: array<Listed>)
    modifies a
    ensures NewestFirst(a[..])
    ensures multiset(a[..]) == multiset(old(a[..]))
  {
    var i := 0;
    while i < a.Length
      invariant 0 <= i <= a.Length
      invariant NewestFirst(a[..i])
      invariant multiset(a[..]) == multiset(old(a[..]))
    {
      InsertNewest(a, i);
      i := i + 1;
    }
    assert a[..a.Length] == a[..];
  }

  /** One insertion step: `a[i]` moves down past every element with an older
      key, so that the prefix `a[..i + 1]` is newest first. */
  method InsertNewest(a: array<Listed>, i: int)
    requires 0 <= i < a.Length && NewestFirst(a[..i])
    modifies a
    ensures NewestFirst(a[..i + 1])
    ensures multiset(a[..]) == multiset(old(a[..]))
  {
    var j := i;
    while j > 0 && !KeyNotAbove(a[j], a[j - 1])
      invariant 0 <= j <= i
      invariant forall k :: 0 < k <= i && k != j ==> KeyNotAbove(a[k], a[k - 1])
      invariant 0 < j < i ==> KeyNotAbove(a[j + 1], a[j - 1])
      invariant multiset(a[..]) == multiset(old(a[..]))
    {
      StrLeTotal(CreatedKey(a[j]), CreatedKey(a[j - 1]));
      SwapDown(a, j);
      j := j - 1;
    }
  }

  /** Exchange `a[j - 1]` and `a[j]`. */
  method SwapDown(a: array<Listed>, j: int)
    requires 0 < j < a.Length
    modifies a
    ensures a[j - 1] == old(a[j]) && a[j] == old(a[j - 1])
    ensures forall k :: 0 <= k < a.Length && k != j - 1 && k != j ==> a[k] == old(a[k])
    ensures multiset(a[..]) == multiset(old(a[..]))
  {
    a[j - 1], a[j] := a[j], a[j - 1];
  }

  class AnnouncementTable {
    /** The usernames of the known teachers: the identity check of every
        authenticated handler. */
    const teachers: set<string>
    /** The ids of the stored documents in the order a scan returns them. */
    var order: seq<string>
    /** The stored documents by id. */
    var records: map<string, Announcement>

    /** The scan order lists each stored id once, and every id is the
        lower-case string of an ObjectId. */
    ghost predicate Valid()
      reads this
    {
      && NoDuplicates(order)
      && (forall id :: id in order <==> id in records)
      && (forall id :: id in records ==> IsStoredId(id))
    }

    /** Every stored document satisfies the record invariant. */
    ghost predicate Consistent()
      reads this
    {
      forall id :: id in records ==> WellFormed(records[id])
    }

    /** `announcements_collection.find()`: every stored document, in scan order. */
    function Scan(): (s: seq<Listed>)
      reads this
      requires Valid()
      ensures |s| == |order|
    {
      ScanOf(order, records)
    }

    constructor (teachers: set<string>)
      ensures Valid() && Consistent()
      ensures this.teachers == teachers && order == [] && records == map[]
    {
      this.teachers := teachers;
      order := [];
      records := map[];
    }

    /** `get_active_announcements`: the documents active on `today`, in scan
        order. It has no error outcome. */
    method GetActive(today: Date) returns (active: seq<Listed>)
      requires Valid() && ValidDate(today)
      ensures active == FilterActive(Scan(), FormatDate(today))
    {
      var current := FormatDate(today);
      active := [];
      var i := 0;
      while i < |order|
        invariant 0 <= i <= |order|
        invariant active == FilterActive(Scan()[..i], current)
      {
        var announcement := Listed(order[i], records[order[i]]);
        assert Scan()[..i + 1] == Scan()[..i] + [announcement];
        if IsActive(announcement.record, current) {
          active := active + [announcement];
        }
        i := i + 1;
      }
      assert Scan()[..i] == Scan();
    }

    /** `get_all_announcements`: for a known user, every stored document,
        newest first. */
    method ListAll(username: string) returns (r: Response<seq<Listed>>)
      requires Valid()
      ensures username !in teachers ==> r == Unauthorized
      ensures username in teachers ==>
        r.Ok? && NewestFirst(r.value) && multiset(r.value) == multiset(Scan())
    {
      if username !in teachers {
        return Unauthorized;
      }
      var all := Scan();
      var a := new Listed[|all|](i requires 0 <= i < |all| => all[i]);
      assert a[..] == all;
      SortNewestFirst(a);
      r := Ok(a[..]);
    }

    /** `create_announcement`: for a known creator and dates that pass the
        check, insert the request's document under the fresh id `newId`,
        created at `now`. */
    method Create(req: NewAnnouncement, newId: string, now: string) returns (r: Response<Listed>)
      requires Valid() && MessageFits(req.message)
      requires IsStoredId(newId) && newId !in records
      modifies this
      ensures Valid()
      ensures req.createdBy !in teachers ==> r == Unauthorized
      ensures req.createdBy in teachers ==>
        var check := CheckCreateDates(req.startDate, req.expirationDate);
        r == if check.Some? then InvalidArgument(check.value) else Ok(Listed(newId, NewRecord(req, now)))
      ensures r.Ok? ==> records == old(records)[newId := r.value.record] && order == old(order) + [newId]
      ensures r.Ok? ==>
        && r.value.record.message == req.message
        && r.value.record.startDate == req.startDate
        && r.value.record.expirationDate == Some(req.expirationDate)
        && r.value.record.createdBy == req.createdBy
        && r.value.record.createdAt == Some(now)
      ensures !r.Ok? ==> records == old(records) && order == old(order)
      ensures old(Consistent()) ==> Consistent()
    {
      if req.createdBy !in teachers {
        return Unauthorized;
      }
      var check := CheckCreateDates(req.startDate, req.expirationDate);
      if check.Some? {
        return InvalidArgument(check.value);
      }
      var document := NewRecord(req, now);
      CreatedIsWellFormed(req, now);
      records := records[newId := document];
      order := order + [newId];
      r := Ok(Listed(newId, document));
    }

    /** `update_announcement`: for a known user, a valid id of a stored
        document, and effective dates that pass the check, write the merge
        of the patch into that document. */
    method Update(id: string, username: string, patch: AnnouncementPatch) returns (r: Response<Listed>)
      requires Valid() && ValidPatch(patch)
      modifies this
      ensures Valid() && order == old(order)
      ensures username !in teachers ==> r == Unauthorized
      ensures username in teachers && !ValidId(id) ==> r == InvalidArgument(INVALID_ID)
      ensures username in teachers && ValidId(id) && IdKey(id) !in old(records) ==> r == NotFound
      ensures username in teachers && ValidId(id) && IdKey(id) in old(records) ==>
        var merged := Merge(old(records)[IdKey(id)], patch);
        var check := CheckEffectiveDates(merged.startDate, merged.expirationDate);
        r == if check.Some? then InvalidArgument(check.value) else Ok(Listed(IdKey(id), merged))
      ensures r.Ok? ==> records == old(records)[r.value.id := r.value.record]
      ensures !r.Ok? ==> records == old(records)
      ensures old(Consistent()) ==> Consistent()
    {
      if username !in teachers {
        return Unauthorized;
      }
      if !ValidId(id) {
        return InvalidArgument(INVALID_ID);
      }
      var key := IdKey(id);
      if key !in records {
        return NotFound;
      }
      var existing := records[key];
      // The update document, one supplied field at a time.
      var updated := existing;
      if patch.message.Some? {
        updated := updated.(message := patch.message.value);
      }
      if patch.startDate.Some? {
        updated := updated.(startDate := patch.startDate);
      }
      if patch.expirationDate.Some? {
        updated := updated.(expirationDate := patch.expirationDate);
      }
      var check := CheckEffectiveDates(updated.startDate, updated.expirationDate);
      if check.Some? {
        return InvalidArgument(check.value);
      }
      if existing.createdAt.Some? && MessageFits(existing.message) {
        UpdateKeepsWellFormed(existing, patch);
      }
      records := records[key := updated];
      r := Ok(Listed(key, updated));
    }

    /** `delete_announcement`: for a known user and a valid id, remove the
        document with that id, or report that there is none. */
    method Delete(id: string, username: string) returns (r: Response<string>)
      requires Valid()
      modifies this
      ensures Valid()
      ensures username !in teachers ==> r == Unauthorized
      ensures username in teachers && !ValidId(id) ==> r == InvalidArgument(INVALID_ID)
      ensures username in teachers && ValidId(id) ==>
        r == if IdKey(id) in old(records) then Ok(DELETED) else NotFound
      ensures r.Ok? ==>
        && records == old(records) - {IdKey(id)}
        && order == Without(old(order), IdKey(id))
      ensures !r.Ok? ==> records == old(records) && order == old(order)
      ensures old(Consistent()) ==> Consistent()
    {
      if username !in teachers {
        return Unauthorized;
      }
      if !ValidId(id) {
        return InvalidArgument(INVALID_ID);
      }
      var key := IdKey(id);
      if key !in records {
        return NotFound;
      }
      WithoutKeepsDistinct(order, key);
      records := records - {key};
      order := Without(order, key);
      r := Ok(DELETED);
    }
  }

  /** A document created by a known user is in the next listing of all
      documents, with the request's fields, its id and its creation time. */
  method CreateThenListAll(table: AnnouncementTable, req: NewAnnouncement, newId: string, now: string)
    returns (created: Response<Listed>, listing: Response<seq<Listed>>)
    requires table.Valid() && MessageFits(req.message)
    requires IsStoredId(newId) && newId !in table.records
    requires req.createdBy in table.teachers
    requires CheckCreateDates(req.startDate, req.expirationDate).None?
    modifies table
    ensures created == Ok(Listed(newId, NewRecord(req, now)))
    ensures listing.Ok? && created.value in listing.value
  {
    created := table.Create(req, newId, now);
    listing := table.ListAll(req.createdBy);
    var scan := table.Scan();
    assert scan[|scan| - 1] == created.value;
    assert created.value in multiset(listing.value);
  }
}
