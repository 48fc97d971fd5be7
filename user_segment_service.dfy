/** Assignment of users to segments: single assign and unassign, the two
    listings, and the randomized mass assignment. */
module UserSegmentService {
  import opened Models
  import opened SegmentRepository
  import opened UsersRepository

  // ---------------------------------------------------------------------
  // Resolving a user's assignments to segments
  // ---------------------------------------------------------------------

  /** A database that answers every query without error. */
  const NoFaults: nat -> Option<StoreError> := _ => None

  /** What `ListUserSegments` makes of a list of assignments, as written: the
      segment of each assignment, in order, or the error of the first lookup
      that fails, the i-th lookup meeting the database's answer `faults(i)`. */
  function Resolve(asgs: seq<UserSegmentAssignment>, catalog: map<SegmentId, Segment>,
                   faults: nat -> Option<StoreError>): (r: Result<seq<Segment>>)
    ensures r.Ok? <==> forall i :: 0 <= i < |asgs| ==> Lookup(catalog, asgs[i].segmentID, faults(i)).Ok?
    ensures r.Ok? ==> |r.value| == |asgs|
    ensures r.Ok? ==> forall i :: 0 <= i < |asgs| ==> r.value[i] == catalog[asgs[i].segmentID]
    decreases |asgs|
  {
    if asgs == [] then Ok([])
    else
      var n := |asgs| - 1;
      assert forall i :: 0 <= i < n ==> asgs[..n][i] == asgs[i];
      match Resolve(asgs[..n], catalog, faults)
      case Err(e) => Err(e)
      case Ok(front) =>
        match Lookup(catalog, asgs[n].segmentID, faults(n))
        case Err(e) => Err(e)
        case Ok(seg) => Ok(front + [seg])
  }

  /** Appending an assignment whose lookup succeeds to a listable sequence
      appends its segment to the listing. */
  lemma ResolveAppend(front: seq<UserSegmentAssignment>, a: UserSegmentAssignment, catalog: map<SegmentId, Segment>,
                      faults: nat -> Option<StoreError>)
    requires Resolve(front, catalog, faults).Ok?
    requires Lookup(catalog, a.segmentID, faults(|front|)).Ok?
    ensures Resolve(front + [a], catalog, faults) == Ok(Resolve(front, catalog, faults).value + [catalog[a.segmentID]])
  {
    assert (front + [a])[..|front|] == front;
  }

  /** The first failing lookup decides the listing: once every earlier
      lookup has succeeded, a failing lookup's error is the listing's. */
  lemma {:induction false} ResolveStopsAt(asgs: seq<UserSegmentAssignment>, catalog: map<SegmentId, Segment>,
                                          faults: nat -> Option<StoreError>, i: nat)
    requires i < |asgs| && Resolve(asgs[..i], catalog, faults).Ok?
    requires Lookup(catalog, asgs[i].segmentID, faults(i)).Err?
    ensures Resolve(asgs, catalog, faults) == Err(Lookup(catalog, asgs[i].segmentID, faults(i)).error)
    decreases |asgs|
  {
    var n := |asgs| - 1;
    if i < n {
      assert asgs[..n][..i] == asgs[..i];
      assert asgs[..n][i] == asgs[i];
      ResolveStopsAt(asgs[..n], catalog, faults, i);
    } else {
      assert asgs[..i] == asgs[..n];
    }
  }

  /** A failed listing fails with the error of a lookup that fails after
      every earlier one has succeeded. */
  lemma {:induction false} ResolveFirstFailure(asgs: seq<UserSegmentAssignment>, catalog: map<SegmentId, Segment>,
                                               faults: nat -> Option<StoreError>)
    ensures var r := Resolve(asgs, catalog, faults);
      r.Err? ==> exists i :: 0 <= i < |asgs| && Lookup(catalog, asgs[i].segmentID, faults(i)) == Err(r.error)
                             && forall j :: 0 <= j < i ==> Lookup(catalog, asgs[j].segmentID, faults(j)).Ok?
    decreases |asgs|
  {
    var r := Resolve(asgs, catalog, faults);
    if r.Err? {
      var n := |asgs| - 1;
      var front := Resolve(asgs[..n], catalog, faults);
      if front.Err? {
        ResolveFirstFailure(asgs[..n], catalog, faults);
        var i :| 0 <= i < n && Lookup(catalog, asgs[..n][i].segmentID, faults(i)) == Err(front.error)
                 && forall j :: 0 <= j < i ==> Lookup(catalog, asgs[..n][j].segmentID, faults(j)).Ok?;
        assert forall j :: 0 <= j <= i ==> asgs[..n][j] == asgs[j];
      } else {
        assert forall j :: 0 <= j < n ==> asgs[..n][j] == asgs[j];
        assert Lookup(catalog, asgs[n].segmentID, faults(n)) == Err(r.error);
      }
    }
  }

  /** The assignments whose segment is still in the catalog, in order. */
  function LiveOnly(asgs: seq<UserSegmentAssignment>, catalog: map<SegmentId, Segment>): seq<UserSegmentAssignment>
    decreases |asgs|
  {
    if asgs == [] then []
    else
      var n := |asgs| - 1;
      LiveOnly(asgs[..n], catalog) + (if asgs[n].segmentID in catalog then [asgs[n]] else [])
  }

  /** The listing the nil check in `ListUserSegments` was meant to give: the
      segment of each assignment whose segment still exists, in order,
      skipping assignments whose segment was deleted. */
  function ResolveLive(asgs: seq<UserSegmentAssignment>, catalog: map<SegmentId, Segment>): (r: seq<Segment>)
    ensures |r| <= |asgs|
    ensures forall i :: 0 <= i < |asgs| && asgs[i].segmentID in catalog ==> catalog[asgs[i].segmentID] in r
    ensures forall s :: s in r ==> exists i :: 0 <= i < |asgs| && asgs[i].segmentID in catalog && catalog[asgs[i].segmentID] == s
    decreases |asgs|
  {
    if asgs == [] then []
    else
      var n := |asgs| - 1;
      var front := ResolveLive(asgs[..n], catalog);
      assert forall i :: 0 <= i < n ==> asgs[..n][i] == asgs[i];
      if asgs[n].segmentID in catalog then front + [catalog[asgs[n].segmentID]] else front
  }

  /** The intended listing is the as-written one applied to the live
      assignments only: same segments, same order, same multiplicity. */
  lemma {:induction false} ResolveLiveIsFiltered(asgs: seq<UserSegmentAssignment>, catalog: map<SegmentId, Segment>)
    ensures Resolve(LiveOnly(asgs, catalog), catalog, NoFaults) == Ok(ResolveLive(asgs, catalog))
    decreases |asgs|
  {
    if asgs != [] {
      var n := |asgs| - 1;
      ResolveLiveIsFiltered(asgs[..n], catalog);
      var live := LiveOnly(asgs[..n], catalog);
      if asgs[n].segmentID in catalog {
        assert LiveOnly(asgs, catalog) == live + [asgs[n]];
        ResolveAppend(live, asgs[n], catalog, NoFaults);
      } else {
        assert LiveOnly(asgs, catalog) == live;
      }
    }
  }

  /** With no orphaned assignment every assignment is live. */
  lemma {:induction false} LiveOnlyWithoutOrphans(asgs: seq<UserSegmentAssignment>, catalog: map<SegmentId, Segment>)
    requires forall i :: 0 <= i < |asgs| ==> asgs[i].segmentID in catalog
    ensures LiveOnly(asgs, catalog) == asgs
    decreases |asgs|
  {
    if asgs != [] {
      var n := |asgs| - 1;
      assert forall i :: 0 <= i < n ==> asgs[..n][i] == asgs[i];
      LiveOnlyWithoutOrphans(asgs[..n], catalog);
      assert asgs[..n] + [asgs[n]] == asgs;
    }
  }

  /** With no orphaned assignment, and a database that answers every lookup,
      the intended listing and the listing as written agree. */
  lemma ResolveLiveWithoutOrphans(asgs: seq<UserSegmentAssignment>, catalog: map<SegmentId, Segment>)
    requires forall i :: 0 <= i < |asgs| ==> asgs[i].segmentID in catalog
    ensures Resolve(asgs, catalog, NoFaults) == Ok(ResolveLive(asgs, catalog))
  {
    ResolveLiveIsFiltered(asgs, catalog);
    LiveOnlyWithoutOrphans(asgs, catalog);
  }

  /** An assignment whose segment was deleted makes the whole listing fail
      with NoRows when no lookup up to it meets a database error, although
      every other assigned segment is still there to be listed. */
  lemma OrphanedAssignmentFailsListing(asgs: seq<UserSegmentAssignment>, catalog: map<SegmentId, Segment>,
                                       faults: nat -> Option<StoreError>, k: nat)
    requires k < |asgs| && asgs[k].segmentID !in catalog
    requires forall j :: 0 <= j <= k ==> faults(j).None?
    ensures Resolve(asgs, catalog, faults) == Err(NoRows)
    ensures forall i :: 0 <= i < |asgs| && asgs[i].segmentID in catalog ==> catalog[asgs[i].segmentID] in ResolveLive(asgs, catalog)
  {
    var r := Resolve(asgs, catalog, faults);
    ResolveFirstFailure(asgs, catalog, faults);
    assert Lookup(catalog, asgs[k].segmentID, faults(k)).Err?;
    var i :| 0 <= i < |asgs| && Lookup(catalog, asgs[i].segmentID, faults(i)) == Err(r.error)
             && forall j :: 0 <= j < i ==> Lookup(catalog, asgs[j].segmentID, faults(j)).Ok?;
    assert i <= k;
  }

  /** The smallest instance: user 7 is in segments 1 and 2, segment 1 has been
      deleted; the listing fails instead of returning segment 2. */
  lemma OrphanExample(live: Segment)
    requires live.id == 2
    ensures Resolve([UserSegmentAssignment(1, 7, Manual, 0), UserSegmentAssignment(2, 7, Manual, 0)], map[2 := live], NoFaults) == Err(NoRows)
    ensures ResolveLive([UserSegmentAssignment(1, 7, Manual, 0), UserSegmentAssignment(2, 7, Manual, 0)], map[2 := live]) == [live]
  {
    var asgs := [UserSegmentAssignment(1, 7, Manual, 0), UserSegmentAssignment(2, 7, Manual, 0)];
    assert asgs[..1] == [UserSegmentAssignment(1, 7, Manual, 0)];
    assert asgs[..1][..0] == [];
  }

  /** Resolving all of a user's rows, in whatever order they were read:
      the listing succeeds exactly when no lookup meets a database error and
      none of the user's assignments is orphaned, and then lists exactly the
      user's segments, each once. */
  lemma {:induction false} ResolveUserRows(read: seq<UserSegmentAssignment>, rel: Relation, catalog: map<SegmentId, Segment>,
                                           faults: nat -> Option<StoreError>, userID: UserId)
    requires forall id :: id in catalog ==> catalog[id].id == id
    requires forall a :: a in read <==> IsRow(rel, a) && a.userID == userID
    requires forall i, j :: 0 <= i < j < |read| ==> read[i].segmentID != read[j].segmentID
    ensures Resolve(read, catalog, faults).Ok? <==>
              (forall i :: 0 <= i < |read| ==> faults(i).None?) && forall k :: k in rel && k.1 == userID ==> k.0 in catalog
    ensures Resolve(read, catalog, faults).Ok? ==> DistinctIds(Resolve(read, catalog, faults).value)
    ensures Resolve(read, catalog, faults).Ok? ==> forall s :: s in Resolve(read, catalog, faults).value <==>
              s.id in catalog && catalog[s.id] == s && (s.id, userID) in rel
  {
    var r := Resolve(read, catalog, faults);
    if r.Ok? {
      forall k | k in rel && k.1 == userID
        ensures k.0 in catalog
      {
        var a := RowAt(rel, k);
        assert a in read;
        var i :| 0 <= i < |read| && read[i] == a;
        assert Lookup(catalog, read[i].segmentID, faults(i)).Ok?;
      }
      forall s
        ensures s in r.value <==> s.id in catalog && catalog[s.id] == s && (s.id, userID) in rel
      {
        if s in r.value {
          var i :| 0 <= i < |r.value| && r.value[i] == s;
          assert read[i] in read;
        }
        if s.id in catalog && catalog[s.id] == s && (s.id, userID) in rel {
          var a := RowAt(rel, (s.id, userID));
          assert a in read;
          var i :| 0 <= i < |read| && read[i] == a;
          assert r.value[i] == s;
        }
      }
    } else if forall i :: 0 <= i < |read| ==> faults(i).None? {
      ResolveFirstFailure(read, catalog, faults);
      var i :| 0 <= i < |read| && Lookup(catalog, read[i].segmentID, faults(i)) == Err(r.error);
      assert read[i] in read;
      assert (read[i].segmentID, userID) in rel && read[i].segmentID !in catalog;
    }
  }

  // ---------------------------------------------------------------------
  // Mass assignment: how many users, which users, and the write loop
  // ---------------------------------------------------------------------

  /** The number of users a mass assignment selects out of `n`: `percent` of
      them rounded down, but at least one. */
  function SelectCount(n: nat, percent: int): (count: nat)
    requires n >= 1 && 1 <= percent <= 100
    ensures 1 <= count <= n
    ensures count == 1 || count * 100 <= n * percent < (count + 1) * 100
    ensures n * percent >= 100 ==> count * 100 <= n * percent < (count + 1) * 100
    ensures percent == 100 ==> count == n
  {
    var product := n * percent;
    ProductBounds(n, percent);
    var count := product / 100;
    assert count * 100 <= product < count * 100 + 100;
    assert count <= n;
    if count == 0 && percent > 0 then 1 else count
  }

  /** `n * percent` lies between `n` and `n * 100`, and is `n * 100` exactly
      at 100 percent. */
  lemma ProductBounds(n: nat, percent: int)
    requires 1 <= percent <= 100
    ensures n <= n * percent <= n * 100
    ensures percent == 100 ==> (n * percent) / 100 == n
  {
    assert n * percent - n == n * (percent - 1);
    assert n * 100 - n * percent == n * (100 - percent);
  }

  /** The two worked figures: 30% of 10 users is 3, and 5% of 10 users,
      0.5 rounded down to 0, is raised to 1. */
  lemma SelectCountExamples()
    ensures SelectCount(10, 30) == 3
    ensures SelectCount(10, 5) == 1
  {
  }

  /** `order` lists each position 0..n-1 exactly once. */
  predicate IsPermutation(order: seq<nat>, n: nat)
  {
    && |order| == n
    && (forall i :: 0 <= i < |order| ==> order[i] < n)
    && Distinct(order)
  }

  /** The set {0, ..., n-1}. */
  function Below(n: nat): (s: set<nat>)
    ensures forall k: nat :: k in s <==> k < n
    ensures |s| == n
  {
    if n == 0 then {} else
      var s := Below(n - 1) + {n - 1};
      assert Below(n - 1) * {n - 1} == {};
      s
  }

  /** The positions listed in `order`. */
  function Positions(order: seq<nat>): set<nat>
  {
    set i | i in order
  }

  /** A sequence without repeats has as many positions as elements. */
  lemma {:induction false} DistinctPositions(order: seq<nat>)
    requires Distinct(order)
    ensures |Positions(order)| == |order|
  {
    if order != [] {
      var rest := order[1..];
      DistinctPositions(rest);
      assert Positions(order) == {order[0]} + Positions(rest);
      assert order[0] !in Positions(rest);
    }
  }

  /** A permutation of 0..n-1 lists every position. */
  lemma PermutationIsOnto(order: seq<nat>, n: nat)
    requires IsPermutation(order, n)
    ensures forall k: nat :: k < n ==> k in order
  {
    var listed, all := Positions(order), Below(n);
    DistinctPositions(order);
    assert listed <= all;
    assert all * listed == listed;
    assert |all - listed| == 0;
    forall k: nat | k < n
      ensures k in order
    {
      assert k in all && k !in all - listed;
    }
  }

  /** The population in the shuffled order `order` (the model of rand.Shuffle). */
  function Permute(pop: seq<UserId>, order: seq<nat>): seq<UserId>
    requires IsPermutation(order, |pop|)
  {
    seq(|pop|, i requires 0 <= i < |pop| => pop[order[i]])
  }

  /** Shuffling a population without repeats yields a permutation of it: the
      same users, each once. */
  lemma PermuteIsPermutation(pop: seq<UserId>, order: seq<nat>)
    requires IsPermutation(order, |pop|) && Distinct(pop)
    ensures Distinct(Permute(pop, order))
    ensures forall u :: u in Permute(pop, order) <==> u in pop
  {
    var r := Permute(pop, order);
    PermutationIsOnto(order, |pop|);
    forall u | u in pop
      ensures u in r
    {
      var k: nat :| k < |pop| && pop[k] == u;
      assert k in order;
      var i :| 0 <= i < |order| && order[i] == k;
      assert r[i] == u;
    }
  }

  /** A hard error: any failure other than the duplicate signal. */
  predicate IsHard(fault: Option<StoreError>)
  {
    fault.Some? && !fault.value.Duplicate?
  }

  datatype BatchOutcome = Completed(assignedCount: nat, skipped: nat) | Aborted(error: StoreError)

  /** The running tally of the write loop and the relation it has produced. */
  datatype BatchState = BatchState(outcome: BatchOutcome, relation: Relation)

  /** The write loop of a mass assignment over `users`, as a fold: the i-th
      user is written at time `clock(i)` with provenance manual and the
      database answers `faults(i)`. A success counts as assigned, the
      duplicate signal as skipped, and any other error stops the loop with
      the writes made so far left in place. */
  function Batch(rel: Relation, seg: SegmentId, users: seq<UserId>, clock: nat -> Time,
                 faults: nat -> Option<StoreError>): BatchState
    decreases |users|
  {
    if users == [] then BatchState(Completed(0, 0), rel)
    else
      var i := |users| - 1;
      var prior := Batch(rel, seg, users[..i], clock, faults);
      if prior.outcome.Aborted? then prior
      else match faults(i)
        case None =>
          BatchState(Completed(prior.outcome.assignedCount + 1, prior.outcome.skipped),
                     Upsert(prior.relation, UserSegmentAssignment(seg, users[i], Manual, clock(i))))
        case Some(e) =>
          if e.Duplicate? then BatchState(Completed(prior.outcome.assignedCount, prior.outcome.skipped + 1), prior.relation)
          else BatchState(Aborted(e), prior.relation)
  }

  /** Once the loop has stopped, the remaining users change nothing. */
  lemma {:induction false} BatchAbortIsFinal(rel: Relation, seg: SegmentId, users: seq<UserId>, clock: nat -> Time,
                                            faults: nat -> Option<StoreError>, k: nat)
    requires k <= |users|
    requires Batch(rel, seg, users[..k], clock, faults).outcome.Aborted?
    ensures Batch(rel, seg, users, clock, faults) == Batch(rel, seg, users[..k], clock, faults)
    decreases |users| - k
  {
    if k < |users| {
      var n := |users| - 1;
      assert users[..n][..k] == users[..k];
      BatchAbortIsFinal(rel, seg, users[..n], clock, faults, k);
    } else {
      assert users[..k] == users;
    }
  }

  /** A completed loop accounts for every selected user exactly once. */
  lemma {:induction false} BatchTally(rel: Relation, seg: SegmentId, users: seq<UserId>, clock: nat -> Time,
                                      faults: nat -> Option<StoreError>)
    ensures var o := Batch(rel, seg, users, clock, faults).outcome;
      o.Completed? ==> o.assignedCount + o.skipped == |users|
    decreases |users|
  {
    if users != [] {
      BatchTally(rel, seg, users[..|users| - 1], clock, faults);
    }
  }

  /** The loop stops exactly when some write meets a hard error. */
  lemma {:induction false} BatchAbortsIffHard(rel: Relation, seg: SegmentId, users: seq<UserId>, clock: nat -> Time,
                                              faults: nat -> Option<StoreError>)
    ensures Batch(rel, seg, users, clock, faults).outcome.Aborted? <==> exists j :: 0 <= j < |users| && IsHard(faults(j))
    decreases |users|
  {
    if users != [] {
      var n := |users| - 1;
      BatchAbortsIffHard(rel, seg, users[..n], clock, faults);
      if exists j :: 0 <= j < |users| && IsHard(faults(j)) {
        var j :| 0 <= j < |users| && IsHard(faults(j));
        if j < n {
          assert IsHard(faults(j));
        }
      }
    }
  }

  /** With a store that never fails — the real, upserting one — every
      selected user is assigned, none is skipped, and each ends up in the
      segment with provenance manual. */
  lemma {:induction false} BatchWithoutFaults(rel: Relation, seg: SegmentId, users: seq<UserId>, clock: nat -> Time,
                                              faults: nat -> Option<StoreError>)
    requires forall j :: 0 <= j < |users| ==> faults(j).None?
    ensures Batch(rel, seg, users, clock, faults).outcome == Completed(|users|, 0)
    ensures forall j :: 0 <= j < |users| ==> (seg, users[j]) in Batch(rel, seg, users, clock, faults).relation
    decreases |users|
  {
    if users != [] {
      var n := |users| - 1;
      BatchWithoutFaults(rel, seg, users[..n], clock, faults);
      forall j | 0 <= j < n
        ensures users[..n][j] == users[j]
      {
      }
    }
  }

  /** Rows already present are never removed by the loop. */
  lemma {:induction false} BatchKeepsRows(rel: Relation, seg: SegmentId, users: seq<UserId>, clock: nat -> Time,
                                          faults: nat -> Option<StoreError>)
    ensures rel.Keys <= Batch(rel, seg, users, clock, faults).relation.Keys
    decreases |users|
  {
    if users != [] {
      BatchKeepsRows(rel, seg, users[..|users| - 1], clock, faults);
    }
  }

  /** Writes are not rolled back: a user written successfully before any
      hard error is in the segment when the loop ends, with provenance manual. */
  lemma {:induction false} BatchKeepsWrite(rel: Relation, seg: SegmentId, users: seq<UserId>, clock: nat -> Time,
                                           faults: nat -> Option<StoreError>, i: nat)
    requires i < |users| && faults(i).None?
    requires forall j :: 0 <= j <= i ==> !IsHard(faults(j))
    ensures (seg, users[i]) in Batch(rel, seg, users, clock, faults).relation
    ensures Batch(rel, seg, users, clock, faults).relation[(seg, users[i])].assignmentType == Manual
    decreases |users|
  {
    var n := |users| - 1;
    var prior := Batch(rel, seg, users[..n], clock, faults);
    if i < n {
      BatchKeepsWrite(rel, seg, users[..n], clock, faults, i);
      assert users[..n][i] == users[i];
    } else {
      BatchAbortsIffHard(rel, seg, users[..n], clock, faults);
      assert !prior.outcome.Aborted?;
    }
  }

  /** Rows of other segments, and of users outside the batch, are untouched. */
  lemma {:induction false} BatchFrame(rel: Relation, seg: SegmentId, users: seq<UserId>, clock: nat -> Time,
                                      faults: nat -> Option<StoreError>, k: Key)
    requires k.0 != seg || k.1 !in users
    ensures var out := Batch(rel, seg, users, clock, faults).relation;
      (k in out <==> k in rel) && (k in rel ==> out[k] == rel[k])
    decreases |users|
  {
    if users != [] {
      var n := |users| - 1;
      assert k.1 in users[..n] ==> k.1 in users;
      BatchFrame(rel, seg, users[..n], clock, faults, k);
    }
  }

  /** What `AssignUser` answers for the i-th user of a batch on a segment
      that exists: the error of its segment lookup (`lookupFaults(i)`) if
      that fails, otherwise the database's answer to the write (`faults(i)`). */
  function AssignFaults(lookupFaults: nat -> Option<StoreError>, faults: nat -> Option<StoreError>): nat -> Option<StoreError>
  {
    (i: nat) => if lookupFaults(i).Some? then lookupFaults(i) else faults(i)
  }

  /** The result reported for a finished loop. */
  function Report(totalUsers: nat, outcome: BatchOutcome): Result<MassAssignResult>
  {
    match outcome
    case Completed(a, s) => Ok(MassAssignResult(totalUsers, a, s))
    case Aborted(e) => Err(e)
  }

  // ---------------------------------------------------------------------
  // The service
  // ---------------------------------------------------------------------

  class UserSegmentService {
    const segRepo: SegmentDB
    const usRepo: UserDB

    constructor (segRepo: SegmentDB, usRepo: UserDB)
      ensures this.segRepo == segRepo && this.usRepo == usRepo
    {
      this.segRepo := segRepo;
      this.usRepo := usRepo;
    }

    /** Looks the segment up and, if that succeeds, upserts a manual
        assignment stamped `now`. `lookupFault` and `fault` are the
        database's answers to the lookup and to the write. A failed lookup
        returns its error and writes nothing. */
    method AssignUser(segmentID: SegmentId, userID: UserId, now: Time, lookupFault: Option<StoreError>,
                      fault: Option<StoreError>) returns (err: Option<StoreError>)
      requires segRepo.Valid()
      modifies usRepo
      ensures lookupFault.Some? ==> err == lookupFault && usRepo.rows == old(usRepo.rows)
      ensures lookupFault.None? && segmentID !in segRepo.rows ==> err == Some(NoRows) && usRepo.rows == old(usRepo.rows)
      ensures lookupFault.None? && segmentID in segRepo.rows ==> err == fault
      ensures lookupFault.None? && segmentID in segRepo.rows && fault.None? ==>
        usRepo.rows == Upsert(old(usRepo.rows), UserSegmentAssignment(segmentID, userID, Manual, now))
      ensures fault.Some? ==> usRepo.rows == old(usRepo.rows)
    {
      var seg := segRepo.GetByID(segmentID, lookupFault);
      if seg.Err? {
        return Some(seg.error);
      }
      var asg := UserSegmentAssignment(segmentID, userID, Manual, now);
      err := usRepo.Add(asg, fault);
    }

    /** Deletes the pair's row without looking at the segment catalog. */
    method UnassignUser(segmentID: SegmentId, userID: UserId)
      modifies usRepo
      ensures usRepo.rows == old(usRepo.rows) - {(segmentID, userID)}
      ensures (segmentID, userID) !in old(usRepo.rows) ==> usRepo.rows == old(usRepo.rows)
    {
      usRepo.Delete(segmentID, userID);
    }

    /** The segments of a user: the assignments read for the user (`read`,
        in the order the store returned them) are resolved one by one, the
        i-th lookup meeting the database's answer `lookupFaults(i)`, and the
        first lookup that fails makes the whole call fail with its error. */
    method ListUserSegments(userID: UserId, lookupFaults: nat -> Option<StoreError>)
      returns (r: Result<seq<Segment>>, ghost read: seq<UserSegmentAssignment>)
      requires segRepo.Valid()
      ensures forall a :: a in read <==> IsRow(usRepo.rows, a) && a.userID == userID
      ensures r == Resolve(read, segRepo.rows, lookupFaults)
      ensures r.Ok? <==> (forall i :: 0 <= i < |read| ==> lookupFaults(i).None?) &&
                         forall k :: k in usRepo.rows && k.1 == userID ==> k.0 in segRepo.rows
      ensures r.Err? ==> exists i :: 0 <= i < |read| && Lookup(segRepo.rows, read[i].segmentID, lookupFaults(i)) == Err(r.error)
                                     && forall j :: 0 <= j < i ==> Lookup(segRepo.rows, read[j].segmentID, lookupFaults(j)).Ok?
      ensures r.Err? ==> r.error == NoRows || exists i :: 0 <= i < |read| && lookupFaults(i) == Some(r.error)
      ensures r.Ok? ==> DistinctIds(r.value)
      ensures r.Ok? ==> forall s :: s in r.value <==> s.id in segRepo.rows && segRepo.rows[s.id] == s && (s.id, userID) in usRepo.rows
    {
      var assignments := usRepo.ListByUser(userID);
      read := assignments;
      var segments: seq<Segment> := [];
      var i := 0;
      while i < |assignments|
        invariant 0 <= i <= |assignments|
        invariant Resolve(assignments[..i], segRepo.rows, lookupFaults) == Ok(segments)
      {
        var seg := segRepo.GetByID(assignments[i].segmentID, lookupFaults(i));
        if seg.Err? {
          ResolveStopsAt(assignments, segRepo.rows, lookupFaults, i);
          r := Err(seg.error);
          ResolveUserRows(read, usRepo.rows, segRepo.rows, lookupFaults, userID);
          ResolveFirstFailure(read, segRepo.rows, lookupFaults);
          return;
        }
        ResolveAppend(assignments[..i], assignments[i], segRepo.rows, lookupFaults);
        assert assignments[..i] + [assignments[i]] == assignments[..i + 1];
        segments := segments + [seg.value];
        i := i + 1;
      }
      assert assignments[..i] == assignments;
      r := Ok(segments);
      ResolveUserRows(read, usRepo.rows, segRepo.rows, lookupFaults, userID);
    }

    /** The users of a segment: the user id of each assignment read for the
        segment (`read`), in the same order. */
    method ListSegmentUsers(segmentID: SegmentId) returns (users: seq<UserId>, ghost read: seq<UserSegmentAssignment>)
      ensures forall a :: a in read <==> IsRow(usRepo.rows, a) && a.segmentID == segmentID
      ensures |users| == |read| && forall i :: 0 <= i < |read| ==> users[i] == read[i].userID
      ensures Distinct(users)
      ensures forall u :: u in users <==> (segmentID, u) in usRepo.rows
    {
      var assignments := usRepo.ListBySegment(segmentID);
      read := assignments;
      users := [];
      var i := 0;
      while i < |assignments|
        invariant 0 <= i <= |assignments|
        invariant |users| == i && forall j :: 0 <= j < i ==> users[j] == assignments[j].userID
      {
        users := users + [assignments[i].userID];
        i := i + 1;
      }
      forall u | (segmentID, u) in usRepo.rows
        ensures u in users
      {
        var a := RowAt(usRepo.rows, (segmentID, u));
        assert a in assignments;
        var j :| 0 <= j < |assignments| && assignments[j] == a;
        assert users[j] == u;
      }
      forall u | u in users
        ensures (segmentID, u) in usRepo.rows
      {
        var j :| 0 <= j < |users| && users[j] == u;
        assert assignments[j] in assignments;
      }
    }

    /** The write loop of `MassAssignSegment`: assigns `users` in order,
        the i-th at `clock(i)` with the database answering `lookupFaults(i)`
        to its segment lookup and `faults(i)` to its write, counting
        successes as assigned and duplicate signals as skipped, and stopping
        at the first other error. */
    method AssignSelected(segmentID: SegmentId, users: seq<UserId>, clock: nat -> Time,
                          lookupFaults: nat -> Option<StoreError>, faults: nat -> Option<StoreError>)
      returns (outcome: BatchOutcome)
      requires segRepo.Valid() && segmentID in segRepo.rows
      modifies usRepo
      ensures BatchState(outcome, usRepo.rows) == Batch(old(usRepo.rows), segmentID, users, clock, AssignFaults(lookupFaults, faults))
    {
      ghost var answers := AssignFaults(lookupFaults, faults);
      ghost var before := usRepo.rows;
      var assignedCount, skipped := 0, 0;
      var i := 0;
      while i < |users|
        invariant 0 <= i <= |users|
        invariant Batch(before, segmentID, users[..i], clock, answers) == BatchState(Completed(assignedCount, skipped), usRepo.rows)
      {
        var err := AssignUser(segmentID, users[i], clock(i), lookupFaults(i), faults(i));
        assert err == answers(i);
        assert users[..i + 1][..i] == users[..i];
        if err.Some? {
          if err.value.Duplicate? {
            skipped := skipped + 1;
          } else {
            BatchAbortIsFinal(before, segmentID, users, clock, answers, i + 1);
            return Aborted(err.value);
          }
        } else {
          assignedCount := assignedCount + 1;
        }
        i := i + 1;
      }
      assert users[..i] == users;
      outcome := Completed(assignedCount, skipped);
    }

    /** Looks the segment up (the database answering `lookupFault`), then
        selects `SelectCount(n, percent)` of the `n` known users in the
        shuffled order `order` and assigns each to the segment, tallying
        assigned and skipped users; a hard error stops the loop and is
        returned, leaving the writes already made. `population` is the
        ascending user list read from the store and `selected` the users
        attempted, in order; the i-th of them meets `lookupFaults(i)` and
        `faults(i)`. */
    method MassAssignSegment(segmentID: SegmentId, percent: int, order: seq<nat>, clock: nat -> Time,
                             lookupFault: Option<StoreError>, lookupFaults: nat -> Option<StoreError>,
                             faults: nat -> Option<StoreError>)
      returns (r: Result<MassAssignResult>, ghost population: seq<UserId>, ghost selected: seq<UserId>)
      requires 1 <= percent <= 100
      requires segRepo.Valid()
      requires IsPermutation(order, |UsersOf(usRepo.rows)|)
      modifies usRepo
      ensures lookupFault.Some? ==> r == Err(lookupFault.value) && usRepo.rows == old(usRepo.rows)
      ensures lookupFault.None? && segmentID !in segRepo.rows ==> r == Err(NoRows) && usRepo.rows == old(usRepo.rows)
      ensures lookupFault.None? && segmentID in segRepo.rows && UsersOf(old(usRepo.rows)) == {} ==>
        r == Ok(MassAssignResult(0, 0, 0)) && usRepo.rows == old(usRepo.rows)
      ensures lookupFault.None? && segmentID in segRepo.rows && UsersOf(old(usRepo.rows)) != {} ==>
        && Ascending(population)
        && (forall u :: u in population <==> u in UsersOf(old(usRepo.rows)))
        && |population| == |UsersOf(old(usRepo.rows))|
        && selected == Permute(population, order)[..SelectCount(|population|, percent)]
        && usRepo.rows == Batch(old(usRepo.rows), segmentID, selected, clock, AssignFaults(lookupFaults, faults)).relation
        && r == Report(|population|, Batch(old(usRepo.rows), segmentID, selected, clock, AssignFaults(lookupFaults, faults)).outcome)
      ensures Distinct(selected) && forall u :: u in selected ==> u in UsersOf(old(usRepo.rows))
      ensures r.Ok? ==> r.value.totalUsers == |UsersOf(old(usRepo.rows))|
      ensures r.Ok? ==> r.value.assignedCount + r.value.skipped == |selected|
      ensures forall k: Key :: k.0 != segmentID || k.1 !in selected ==>
        (k in usRepo.rows <==> k in old(usRepo.rows)) && (k in old(usRepo.rows) ==> usRepo.rows[k] == old(usRepo.rows)[k])
      ensures lookupFault.None? && segmentID in segRepo.rows &&
              (forall j :: 0 <= j < |selected| ==> lookupFaults(j).None? && faults(j).None?) ==>
        && r == Ok(MassAssignResult(|UsersOf(old(usRepo.rows))|, |selected|, 0))
        && forall u :: u in selected ==> (segmentID, u) in usRepo.rows
    {
      population, selected := [], [];
      var seg := segRepo.GetByID(segmentID, lookupFault);
      if seg.Err? {
        return Err(seg.error), population, selected;
      }
      var userIDs := usRepo.GetAllUserIDs();
      population := userIDs;
      if |userIDs| == 0 {
        return Ok(MassAssignResult(0, 0, 0)), population, selected;
      }
      var shuffled := Permute(userIDs, order);
      PermuteIsPermutation(userIDs, order);
      var count := SelectCount(|userIDs|, percent);
      var picked := shuffled[..count];
      selected := picked;
      assert forall u :: u in picked ==> u in shuffled;
      var answers := AssignFaults(lookupFaults, faults);
      var outcome := AssignSelected(segmentID, picked, clock, lookupFaults, faults);
      BatchTally(old(usRepo.rows), segmentID, picked, clock, answers);
      forall k: Key | k.0 != segmentID || k.1 !in picked
        ensures (k in usRepo.rows <==> k in old(usRepo.rows)) && (k in old(usRepo.rows) ==> usRepo.rows[k] == old(usRepo.rows)[k])
      {
        BatchFrame(old(usRepo.rows), segmentID, picked, clock, answers, k);
      }
      if forall j :: 0 <= j < |picked| ==> lookupFaults(j).None? && faults(j).None? {
        BatchWithoutFaults(old(usRepo.rows), segmentID, picked, clock, answers);
        forall u | u in picked
          ensures (segmentID, u) in usRepo.rows
        {
          var j :| 0 <= j < |picked| && picked[j] == u;
        }
      }
      r := Report(|userIDs|, outcome);
    }
  }
}
