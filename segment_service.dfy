/** Segment lifecycle: create, read, list, update and delete, each guarded by
    a lookup in the segment catalog where the source performs one. */
module SegmentService {
  import opened Models
  import opened SegmentRepository

  class SegmentService {
    const repo: SegmentDB

    constructor (repo: SegmentDB)
      ensures this.repo == repo
    {
      this.repo := repo;
    }

    /** Stamps the record with the service clock `now`, then hands it to the
        store, which stamps it again with `storedAt` and gives it the fresh id
        `newId`: the record returned is the one the store filled in and keeps. */
    method CreateSegment(seg: Segment, now: Time, newId: SegmentId, storedAt: Time) returns (created: Segment)
      requires repo.Valid()
      requires newId !in repo.rows
      modifies repo
      ensures repo.Valid()
      ensures created == seg.(id := newId, createdOn := storedAt)
      ensures repo.rows == old(repo.rows)[newId := created]
    {
      var stamped := seg.(createdOn := now);
      created := repo.Create(stamped, newId, storedAt);
    }

    /** The stored segment, or the store's error: the one the database
        reports, or NoRows for a missing id; there is no third, empty
        outcome. */
    function GetSegmentByID(id: SegmentId, fault: Option<StoreError>): (r: Result<Segment>)
      reads repo
      requires repo.Valid()
      ensures r.Ok? <==> fault.None? && id in repo.rows
      ensures r.Ok? ==> r.value == repo.rows[id] && r.value.id == id
      ensures r.Err? ==> r.error == if fault.Some? then fault.value else NoRows
    {
      repo.GetByID(id, fault)
    }

    /** The store's listing, unchanged: every segment once, newest first. */
    method ListSegments() returns (out: seq<Segment>)
      requires repo.Valid()
      ensures NewestFirst(out) && DistinctIds(out)
      ensures |out| == |repo.rows|
      ensures forall seg :: seg in out <==> seg.id in repo.rows && repo.rows[seg.id] == seg
    {
      out := repo.List();
    }

    /** Writes `seg` over the stored row only when the lookup of its id
        succeeds (`lookupFault` is the database's answer to that lookup),
        and returns `seg` itself. The stored row keeps its own creation time,
        so it equals the returned record only where their `createdOn` agree. */
    method UpdateSegment(seg: Segment, lookupFault: Option<StoreError>) returns (r: Result<Segment>)
      requires repo.Valid()
      modifies repo
      ensures repo.Valid()
      ensures r.Ok? <==> lookupFault.None? && seg.id in old(repo.rows)
      ensures r.Ok? ==> r.value == seg
      ensures r.Ok? ==> repo.rows == old(repo.rows)[seg.id := Overwrite(old(repo.rows)[seg.id], seg)]
      ensures r.Ok? ==> repo.rows[seg.id] == seg.(createdOn := old(repo.rows)[seg.id].createdOn)
      ensures r.Err? ==> r.error == (if lookupFault.Some? then lookupFault.value else NoRows)
      ensures r.Err? ==> repo.rows == old(repo.rows)
    {
      var existing := repo.GetByID(seg.id, lookupFault);
      if existing.Err? {
        return Err(existing.error);
      }
      repo.Update(seg);
      r := Ok(seg);
    }

    /** Deletes the segment with that id, after checking that it exists
        (`lookupFault` is the database's answer to that lookup); a failed
        lookup returns its error and deletes nothing. Assignments that name
        the segment are left in place. */
    method DeleteSegment(id: SegmentId, lookupFault: Option<StoreError>) returns (err: Option<StoreError>)
      requires repo.Valid()
      modifies repo
      ensures repo.Valid()
      ensures err.None? <==> lookupFault.None? && id in old(repo.rows)
      ensures err.None? ==> repo.rows == old(repo.rows) - {id} && id !in repo.rows
      ensures err.Some? ==> err.value == (if lookupFault.Some? then lookupFault.value else NoRows)
      ensures err.Some? ==> repo.rows == old(repo.rows)
    {
      var existing := repo.GetByID(id, lookupFault);
      if existing.Err? {
        return Some(existing.error);
      }
      repo.Delete(id);
      err := None;
    }
  }
}
