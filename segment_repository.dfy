/** The segment catalog (table `segments`), kept as a map from id to row. */
module SegmentRepository {
  import opened Models

  /** Every element's `createdOn` is no earlier than the next one's. */
  predicate NewestFirst(s: seq<Segment>)
  {
    forall i, j :: 0 <= i < j < |s| ==> s[i].createdOn >= s[j].createdOn
  }

  /** No two rows with the same id. */
  predicate DistinctIds(s: seq<Segment>)
  {
    forall i, j :: 0 <= i < j < |s| ==> s[i].id != s[j].id
  }

  /** Places `x` into a newest-first listing; rows with an equal timestamp may
      come in either order, as they may under `ORDER BY created_on DESC`. */
  function InsertByDate(s: seq<Segment>, x: Segment): (r: seq<Segment>)
    requires NewestFirst(s) && DistinctIds(s)
    requires forall i :: 0 <= i < |s| ==> s[i].id != x.id
    ensures NewestFirst(r) && DistinctIds(r)
    ensures |r| == |s| + 1
    ensures forall y :: y in r <==> y in s || y == x
  {
    if s == [] then [x]
    else if s[0].createdOn <= x.createdOn then [x] + s
    else
      var rest := InsertByDate(s[1..], x);
      assert forall k :: 0 <= k < |rest| ==> rest[k] in rest;
      [s[0]] + rest
  }

  /** The row left after `UPDATE segments SET segment_name, type, config,
      description, is_active WHERE id = ...`: the five mutable columns come
      from `seg`, the id and the creation time stay those of `stored`. */
  function Overwrite(stored: Segment, seg: Segment): (r: Segment)
    ensures r.id == stored.id && r.createdOn == stored.createdOn
    ensures r.segmentName == seg.segmentName && r.segmentType == seg.segmentType
    ensures r.config == seg.config && r.description == seg.description
    ensures r.isActive == seg.isActive
  {
    stored.(segmentName := seg.segmentName, segmentType := seg.segmentType, config := seg.config,
            description := seg.description, isActive := seg.isActive)
  }

  /** One lookup by id in a catalog, the database answering `fault`. */
  function Lookup(catalog: map<SegmentId, Segment>, id: SegmentId, fault: Option<StoreError>): Result<Segment>
  {
    if fault.Some? then Err(fault.value)
    else if id in catalog then Ok(catalog[id])
    else Err(NoRows)
  }

  class SegmentDB {
    var rows: map<SegmentId, Segment>

    /** Each row sits under its own id. */
    ghost predicate Valid()
      reads this
    {
      forall id :: id in rows ==> rows[id].id == id
    }

    constructor ()
      ensures Valid() && rows == map[]
    {
      rows := map[];
    }

    /** INSERT of a new segment: the caller's id is replaced by `newId`
        (from `uuid.New`) and the creation time by `now` (from `time.Now`);
        all seven columns are stored. */
    method Create(seg: Segment, newId: SegmentId, now: Time) returns (stored: Segment)
      requires Valid()
      requires newId !in rows
      modifies this
      ensures Valid()
      ensures stored == seg.(id := newId, createdOn := now)
      ensures rows == old(rows)[newId := stored]
    {
      stored := seg.(id := newId);
      stored := stored.(createdOn := now);
      rows := rows[newId := stored];
    }

    /** SELECT of one row by id. `fault` is the database's answer to the
        query: an error it reports is returned as is; otherwise a missing id
        is the `Scan` error NoRows, never an empty success. */
    function GetByID(id: SegmentId, fault: Option<StoreError>): (r: Result<Segment>)
      reads this
      requires Valid()
      ensures r.Ok? <==> fault.None? && id in rows
      ensures r.Ok? ==> r.value == rows[id] && r.value.id == id
      ensures r.Err? ==> r.error == if fault.Some? then fault.value else NoRows
    {
      Lookup(rows, id, fault)
    }

    /** SELECT of every row ORDER BY created_on DESC. */
    method List() returns (out: seq<Segment>)
      requires Valid()
      ensures NewestFirst(out) && DistinctIds(out)
      ensures |out| == |rows|
      ensures forall seg :: seg in out <==> seg.id in rows && rows[seg.id] == seg
    {
      out := [];
      var pending := rows.Keys;
      while pending != {}
        invariant pending <= rows.Keys
        invariant NewestFirst(out) && DistinctIds(out)
        invariant |out| + |pending| == |rows|
        invariant forall seg :: seg in out <==> seg.id in rows && seg.id !in pending && rows[seg.id] == seg
        decreases pending
      {
        var id :| id in pending;
        forall i | 0 <= i < |out|
          ensures out[i].id != rows[id].id
        {
          assert out[i] in out;
        }
        out := InsertByDate(out, rows[id]);
        pending := pending - {id};
      }
      assert rows.Keys == rows.Keys - pending;
    }

    /** UPDATE of the five mutable columns of the row with `seg.id`; an
        absent id matches no row, changes nothing and is not an error.
        Writing back the row as stored changes nothing either. */
    method Update(seg: Segment)
      requires Valid()
      modifies this
      ensures Valid()
      ensures seg.id in old(rows) ==> rows == old(rows)[seg.id := Overwrite(old(rows)[seg.id], seg)]
      ensures seg.id !in old(rows) ==> rows == old(rows)
      ensures seg.id in old(rows) && old(rows)[seg.id] == seg ==> rows == old(rows)
    {
      if seg.id in rows {
        rows := rows[seg.id := Overwrite(rows[seg.id], seg)];
      }
    }

    /** DELETE of the row with that id; an absent id changes nothing. */
    method Delete(id: SegmentId)
      requires Valid()
      modifies this
      ensures Valid()
      ensures rows == old(rows) - {id}
      ensures id !in old(rows) ==> rows == old(rows)
    {
      rows := rows - {id};
    }
  }
}
