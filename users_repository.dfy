/** The assignment relation (table `user_segment_assignment`), keyed by the
    pair (segment id, user id); each key carries its provenance and time. */
module UsersRepository {
  import opened Models

  /** The two non-key columns of an assignment row. */
  datatype Stamp = Stamp(assignmentType: AssignmentType, assignedAt: Time)

  type Key = (SegmentId, UserId)
  type Relation = map<Key, Stamp>

  function KeyOf(asg: UserSegmentAssignment): Key
  {
    (asg.segmentID, asg.userID)
  }

  /** The row stored under key `k`, as the four-column record the queries scan. */
  function RowAt(rel: Relation, k: Key): (a: UserSegmentAssignment)
    requires k in rel
    ensures KeyOf(a) == k
  {
    UserSegmentAssignment(k.0, k.1, rel[k].assignmentType, rel[k].assignedAt)
  }

  /** `a` is a row of the relation, all four columns included. */
  predicate IsRow(rel: Relation, a: UserSegmentAssignment)
  {
    KeyOf(a) in rel && rel[KeyOf(a)] == Stamp(a.assignmentType, a.assignedAt)
  }

  /** INSERT ... ON CONFLICT (segment_id, user_id) DO UPDATE SET
      assignment_type, assigned_at: the key ends up holding the new stamp,
      no other key changes, and an existing key gains no second row. */
  function Upsert(rel: Relation, asg: UserSegmentAssignment): (r: Relation)
    ensures IsRow(r, asg)
    ensures r.Keys == rel.Keys + {KeyOf(asg)}
    ensures forall k :: k in rel && k != KeyOf(asg) ==> r[k] == rel[k]
  {
    rel[KeyOf(asg) := Stamp(asg.assignmentType, asg.assignedAt)]
  }

  /** An upsert adds a row only for a pair that had none: re-assigning an
      existing pair leaves the row count as it was. */
  lemma UpsertSize(rel: Relation, asg: UserSegmentAssignment)
    ensures |Upsert(rel, asg)| == if KeyOf(asg) in rel then |rel| else |rel| + 1
  {
  }

  /** Writing the same assignment twice leaves what writing it once leaves. */
  lemma UpsertIdempotent(rel: Relation, asg: UserSegmentAssignment)
    ensures Upsert(Upsert(rel, asg), asg) == Upsert(rel, asg)
  {
  }

  /** Re-assigning a pair replaces its provenance and time: the later write wins. */
  lemma UpsertLastWriteWins(rel: Relation, first: UserSegmentAssignment, second: UserSegmentAssignment)
    requires KeyOf(first) == KeyOf(second)
    ensures Upsert(Upsert(rel, first), second) == Upsert(rel, second)
  {
  }

  /** Every user that appears in some assignment: the only user population there is. */
  function UsersOf(rel: Relation): set<UserId>
  {
    set k | k in rel :: k.1
  }

  /** Strictly increasing, hence also free of repeats. */
  predicate Ascending(s: seq<UserId>)
  {
    forall i, j :: 0 <= i < j < |s| ==> s[i] < s[j]
  }

  /** Adds `x` to an ascending sequence unless it is already there. */
  function InsertSorted(s: seq<UserId>, x: UserId): (r: seq<UserId>)
    requires Ascending(s)
    ensures Ascending(r)
    ensures forall y :: y in r <==> y in s || y == x
  {
    if s == [] then [x]
    else if x < s[0] then [x] + s
    else if x == s[0] then s
    else
      var rest := InsertSorted(s[1..], x);
      assert forall k :: 0 <= k < |rest| ==> rest[k] in rest;
      [s[0]] + rest
  }

  /** The set of elements of a sequence. */
  function Elements(s: seq<UserId>): set<UserId>
  {
    set x | x in s
  }

  /** An ascending sequence has as many elements as its set of elements. */
  lemma {:induction false} AscendingLength(s: seq<UserId>)
    requires Ascending(s)
    ensures |Elements(s)| == |s|
  {
    if s != [] {
      AscendingLength(s[1..]);
      assert Elements(s) == {s[0]} + Elements(s[1..]);
      assert s[0] !in Elements(s[1..]);
    }
  }

  /** An ascending sequence is determined by its elements, so the listing of
      user ids does not depend on the order the rows are visited in. */
  lemma {:induction false} AscendingUnique(a: seq<UserId>, b: seq<UserId>)
    requires Ascending(a) && Ascending(b)
    requires forall x :: x in a <==> x in b
    ensures a == b
  {
    AscendingLength(a);
    AscendingLength(b);
    assert Elements(a) == Elements(b);
    if a != [] {
      var h := a[0];
      assert h in b;
      var g := b[0];
      assert g in a;
      assert h == g;
      forall x
        ensures x in a[1..] <==> x in b[1..]
      {
        if x in a[1..] {
          assert x in b && x != g;
        }
        if x in b[1..] {
          assert x in a && x != h;
        }
      }
      AscendingUnique(a[1..], b[1..]);
      assert a == [h] + a[1..];
      assert b == [g] + b[1..];
    }
  }

  class UserDB {
    var rows: Relation

    constructor ()
      ensures rows == map[]
    {
      rows := map[];
    }

    /** The upsert of one assignment. `fault` is the database's answer:
        None when the statement succeeds, otherwise the error it returns,
        in which case the statement changes nothing. */
    method Add(asg: UserSegmentAssignment, fault: Option<StoreError>) returns (err: Option<StoreError>)
      modifies this
      ensures err == fault
      ensures fault.None? ==> rows == Upsert(old(rows), asg)
      ensures fault.Some? ==> rows == old(rows)
    {
      err := fault;
      if fault.None? {
        rows := Upsert(rows, asg);
      }
    }

    /** DELETE of the row matching both ids; an absent pair changes nothing
        and is not an error. */
    method Delete(segmentID: SegmentId, userID: UserId)
      modifies this
      ensures rows == old(rows) - {(segmentID, userID)}
      ensures (segmentID, userID) !in old(rows) ==> rows == old(rows)
    {
      rows := rows - {(segmentID, userID)};
    }

    /** SELECT of the rows WHERE user_id = `userID`, in no particular order. */
    method ListByUser(userID: UserId) returns (list: seq<UserSegmentAssignment>)
      ensures forall a :: a in list <==> IsRow(rows, a) && a.userID == userID
      ensures forall i, j :: 0 <= i < j < |list| ==> list[i].segmentID != list[j].segmentID
    {
      list := [];
      var pending := rows.Keys;
      while pending != {}
        invariant pending <= rows.Keys
        invariant forall a :: a in list <==> IsRow(rows, a) && a.userID == userID && KeyOf(a) !in pending
        invariant forall i, j :: 0 <= i < j < |list| ==> list[i].segmentID != list[j].segmentID
        decreases pending
      {
        var k :| k in pending;
        if k.1 == userID {
          forall i | 0 <= i < |list|
            ensures list[i].segmentID != k.0
          {
            assert list[i] in list;
          }
          list := list + [RowAt(rows, k)];
        }
        pending := pending - {k};
      }
    }

    /** SELECT of the rows WHERE segment_id = `segmentID`, in no particular order. */
    method ListBySegment(segmentID: SegmentId) returns (list: seq<UserSegmentAssignment>)
      ensures forall a :: a in list <==> IsRow(rows, a) && a.segmentID == segmentID
      ensures forall i, j :: 0 <= i < j < |list| ==> list[i].userID != list[j].userID
    {
      list := [];
      var pending := rows.Keys;
      while pending != {}
        invariant pending <= rows.Keys
        invariant forall a :: a in list <==> IsRow(rows, a) && a.segmentID == segmentID && KeyOf(a) !in pending
        invariant forall i, j :: 0 <= i < j < |list| ==> list[i].userID != list[j].userID
        decreases pending
      {
        var k :| k in pending;
        if k.0 == segmentID {
          forall i | 0 <= i < |list|
            ensures list[i].userID != k.1
          {
            assert list[i] in list;
          }
          list := list + [RowAt(rows, k)];
        }
        pending := pending - {k};
      }
    }

    /** SELECT DISTINCT user_id ... ORDER BY user_id: every user of the
        relation once, ascending. */
    method GetAllUserIDs() returns (ids: seq<UserId>)
      ensures Ascending(ids)
      ensures forall u :: u in ids <==> u in UsersOf(rows)
      ensures |ids| == |UsersOf(rows)|
    {
      ids := [];
      var pending := rows.Keys;
      while pending != {}
        invariant pending <= rows.Keys
        invariant Ascending(ids)
        invariant forall u :: u in ids <==> exists k :: k in rows && k !in pending && k.1 == u
        decreases pending
      {
        var k :| k in pending;
        ids := InsertSorted(ids, k.1);
        pending := pending - {k};
      }
      assert Elements(ids) == UsersOf(rows);
      AscendingLength(ids);
    }
  }
}
