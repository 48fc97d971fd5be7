/** The record-building part of the segment HTTP handler: the defaults of a
    newly created segment and the field-by-field merge of a partial update,
    with the service calls around them. */
module SegmentHandler {
  import opened Models
  import opened SegmentRepository
  import opened SegmentService

  /** The decoded body of POST /segments; `None` marks a field left out. */
  datatype CreateSegmentRequest = CreateSegmentRequest(
    name: string,
    segmentType: string,
    config: Config,
    description: Option<string>,
    isActive: Option<bool>,
    validFrom: Option<Time>,
    validTo: Option<Time>)

  /** The decoded body of PUT /segments/{id}; `None` marks a field left out. */
  datatype UpdateSegmentRequest = UpdateSegmentRequest(
    name: Option<string>,
    segmentType: Option<string>,
    config: Option<Config>,
    description: Option<string>,
    isActive: Option<bool>,
    validFrom: Option<Time>,
    validTo: Option<Time>)

  /** A request that supplies none of the five fields the merge looks at. */
  predicate SuppliesNothing(req: UpdateSegmentRequest)
  {
    req.name.None? && req.segmentType.None? && req.config.None? && req.description.None? && req.isActive.None?
  }

  class SegmentHandler {
    const svc: SegmentService

    constructor (svc: SegmentService)
      ensures this.svc == svc
    {
      this.svc := svc;
    }

    /** The segment built from a create request: name, type and config as
        sent, description empty and the segment active unless the request
        says otherwise, no id yet, and the handler's clock as creation time.
        The validity window is not stored. */
    method NewSegment(req: CreateSegmentRequest, now: Time) returns (seg: Segment)
      ensures seg.id == NilUuid && seg.createdOn == now
      ensures seg.segmentName == req.name && seg.segmentType == ParseType(req.segmentType)
      ensures TypeName(seg.segmentType) == req.segmentType
      ensures seg.config == req.config
      ensures seg.description == (if req.description.Some? then req.description.value else "")
      ensures seg.isActive == (if req.isActive.Some? then req.isActive.value else true)
    {
      seg := Segment(NilUuid, req.name, ParseType(req.segmentType), req.config, "", true, now);
      if req.description.Some? {
        seg := seg.(description := req.description.value);
      }
      if req.isActive.Some? {
        seg := seg.(isActive := req.isActive.value);
      }
    }

    /** The partial-update merge: each of name, type, config, description
        and active flag is replaced only when the request supplies it; the id
        and the creation time are never touched, and the validity window is
        ignored. */
    method MergeUpdate(existing: Segment, req: UpdateSegmentRequest) returns (merged: Segment)
      ensures merged.id == existing.id && merged.createdOn == existing.createdOn
      ensures merged.segmentName == (if req.name.Some? then req.name.value else existing.segmentName)
      ensures req.segmentType.Some? ==> merged.segmentType == ParseType(req.segmentType.value)
      ensures req.segmentType.Some? ==> TypeName(merged.segmentType) == req.segmentType.value
      ensures req.segmentType.None? ==> merged.segmentType == existing.segmentType
      ensures merged.config == (if req.config.Some? then req.config.value else existing.config)
      ensures merged.description == (if req.description.Some? then req.description.value else existing.description)
      ensures merged.isActive == (if req.isActive.Some? then req.isActive.value else existing.isActive)
      ensures SuppliesNothing(req) ==> merged == existing
    {
      merged := existing;
      if req.name.Some? {
        merged := merged.(segmentName := req.name.value);
      }
      if req.segmentType.Some? {
        merged := merged.(segmentType := ParseType(req.segmentType.value));
      }
      if req.config.Some? {
        merged := merged.(config := req.config.value);
      }
      if req.description.Some? {
        merged := merged.(description := req.description.value);
      }
      if req.isActive.Some? {
        merged := merged.(isActive := req.isActive.value);
      }
    }

    /** POST /segments without the wire format: build the record, then create
        it. The stored row, read back by id, is the record returned: the
        request's fields plus the store's fresh id and creation time. */
    method CreateSegment(req: CreateSegmentRequest, handlerNow: Time, serviceNow: Time, newId: SegmentId, storedAt: Time)
      returns (created: Segment)
      requires svc.repo.Valid()
      requires newId !in svc.repo.rows
      modifies svc.repo
      ensures svc.repo.Valid()
      ensures svc.repo.GetByID(newId, None) == Ok(created)
      ensures created.id == newId && created.createdOn == storedAt
      ensures created.segmentName == req.name && created.segmentType == ParseType(req.segmentType)
      ensures TypeName(created.segmentType) == req.segmentType
      ensures created.config == req.config
      ensures created.description == (if req.description.Some? then req.description.value else "")
      ensures created.isActive == (if req.isActive.Some? then req.isActive.value else true)
      ensures svc.repo.rows == old(svc.repo.rows)[newId := created]
    {
      var seg := NewSegment(req, handlerNow);
      created := svc.CreateSegment(seg, serviceNow, newId, storedAt);
    }

    /** PUT /segments/{id} without the wire format: look the segment up, and
        only if that succeeds merge the request into it and write it back,
        the service looking it up a second time. `fetchFault` and
        `lookupFault` are the database's answers to the two lookups. The
        stored row then equals the record returned. */
    method UpdateSegment(id: SegmentId, req: UpdateSegmentRequest, fetchFault: Option<StoreError>,
                         lookupFault: Option<StoreError>) returns (r: Result<Segment>)
      requires svc.repo.Valid()
      modifies svc.repo
      ensures svc.repo.Valid()
      ensures r.Ok? <==> fetchFault.None? && lookupFault.None? && id in old(svc.repo.rows)
      ensures r.Err? ==> svc.repo.rows == old(svc.repo.rows)
      ensures r.Err? ==> r.error == if fetchFault.Some? then fetchFault.value
                                    else if id !in old(svc.repo.rows) then NoRows
                                    else lookupFault.value
      ensures r.Ok? ==> r.value.id == id && svc.repo.rows == old(svc.repo.rows)[id := r.value]
      ensures r.Ok? ==> r.value.createdOn == old(svc.repo.rows)[id].createdOn
      ensures r.Ok? ==> r.value.segmentName == (if req.name.Some? then req.name.value else old(svc.repo.rows)[id].segmentName)
      ensures r.Ok? && req.segmentType.Some? ==> r.value.segmentType == ParseType(req.segmentType.value)
      ensures r.Ok? && req.segmentType.None? ==> r.value.segmentType == old(svc.repo.rows)[id].segmentType
      ensures r.Ok? ==> r.value.config == (if req.config.Some? then req.config.value else old(svc.repo.rows)[id].config)
      ensures r.Ok? ==> r.value.description == (if req.description.Some? then req.description.value else old(svc.repo.rows)[id].description)
      ensures r.Ok? ==> r.value.isActive == (if req.isActive.Some? then req.isActive.value else old(svc.repo.rows)[id].isActive)
      ensures r.Ok? && SuppliesNothing(req) ==> svc.repo.rows == old(svc.repo.rows)
    {
      var existing := svc.GetSegmentByID(id, fetchFault);
      if existing.Err? {
        return Err(existing.error);
      }
      var merged := MergeUpdate(existing.value, req);
      r := svc.UpdateSegment(merged, lookupFault);
    }
  }
}
