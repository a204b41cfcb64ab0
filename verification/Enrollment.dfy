/** Enrolling, reactivating, updating and removing students, one at a time or in bulk. */
module Enrollment {
  import opened Common

  datatype EnrollmentStatus = Active | Completed | Dropped | Awaiting

  datatype Enrolled = Enrolled(id: Uuid, student: Uuid, course: Uuid, status: EnrollmentStatus)

  /** The enrollments table; a new row takes an id not used before. */
  datatype Roll = Roll(rows: seq<Enrolled>, nextId: Uuid)

  /** A request to enroll; allowed stands for the course, student, role and lecturer checks. */
  datatype Request = Request(student: Uuid, course: Uuid, allowed: bool)

  datatype Refusal = NotAllowed | AlreadyEnrolled

  datatype Reply = Accepted(id: Uuid) | Refused(why: Refusal) | ManyRows

  predicate ForPair(row: Enrolled, student: Uuid, course: Uuid) {
    row.student == student && row.course == course
  }

  /** The position of the first row for a student and course, or the end of the table. */
  function FirstFor(rows: seq<Enrolled>, student: Uuid, course: Uuid): (i: nat)
    ensures i <= |rows|
    ensures i < |rows| ==> ForPair(rows[i], student, course)
    ensures forall j :: 0 <= j < i ==> !ForPair(rows[j], student, course)
  {
    if rows == [] || ForPair(rows[0], student, course) then 0
    else
      var i := FirstFor(rows[1..], student, course);
      assert forall j :: 1 <= j < |rows| ==> rows[j] == rows[1..][j - 1];
      i + 1
  }

  /** Does the lookup find a second row, so that scalar_one_or_none raises? */
  predicate SecondFor(rows: seq<Enrolled>, student: Uuid, course: Uuid) {
    var i := FirstFor(rows, student, course);
    exists j :: i < j < |rows| && ForPair(rows[j], student, course)
  }

  /**
    create, with the insert as it is meant. As written the insert always
    raises: it names a column the table does not have and leaves the tenant
    empty; see CreateAsWritten.
  */
  function Create(r: Roll, q: Request): (Roll, Reply) {
    if !q.allowed then (r, Refused(NotAllowed))
    else
      var i := FirstFor(r.rows, q.student, q.course);
      if SecondFor(r.rows, q.student, q.course) then (r, ManyRows)
      else if i == |r.rows| then
        (Roll(r.rows + [Enrolled(r.nextId, q.student, q.course, Active)], r.nextId + 1), Accepted(r.nextId))
      else if r.rows[i].status.Dropped? then
        (r.(rows := r.rows[i := r.rows[i].(status := Active)]), Accepted(r.rows[i].id))
      else (r, Refused(AlreadyEnrolled))
  }

  function Update(r: Roll, id: Uuid, status: Option<EnrollmentStatus>): (r': Roll)
    ensures |r'.rows| == |r.rows| && r'.nextId == r.nextId
    ensures forall i :: 0 <= i < |r.rows| ==>
              r'.rows[i] == if r.rows[i].id == id && status.Some? then r.rows[i].(status := status.value) else r.rows[i]
  {
    r.(rows := seq(|r.rows|, i requires 0 <= i < |r.rows| =>
      if r.rows[i].id == id && status.Some? then r.rows[i].(status := status.value) else r.rows[i]))
  }

  function Without(rows: seq<Enrolled>, id: Uuid): seq<Enrolled> {
    if rows == [] then []
    else (if rows[0].id == id then [] else [rows[0]]) + Without(rows[1..], id)
  }

  function Remove(r: Roll, id: Uuid, allowed: bool): Roll {
    if allowed then r.(rows := Without(r.rows, id)) else r
  }

  function Bulk(r: Roll, requests: seq<Request>): Roll {
    if requests == [] then r else Create(Bulk(r, requests[..|requests| - 1]), requests[|requests| - 1]).0
  }

  // ---- one row per student and course --------------------------------------

  /** The invariant that no database constraint states while the semester is null. */
  ghost predicate ValidRoll(r: Roll) {
    (forall i :: 0 <= i < |r.rows| ==> r.rows[i].id < r.nextId) &&
    (forall i, j :: 0 <= i < j < |r.rows| ==> r.rows[i].id != r.rows[j].id) &&
    (forall i, j :: 0 <= i < j < |r.rows| ==> !ForPair(r.rows[j], r.rows[i].student, r.rows[i].course))
  }

  /** Creating keeps one row per pair, so the lookup never finds several. */
  lemma CreateKeepsValid(r: Roll, q: Request)
    requires ValidRoll(r)
    ensures ValidRoll(Create(r, q).0)
    ensures !Create(r, q).1.ManyRows?
  {
    var i := FirstFor(r.rows, q.student, q.course);
    assert !SecondFor(r.rows, q.student, q.course);
    if q.allowed && i == |r.rows| {
      AppendKeepsValid(r, q.student, q.course);
    }
  }

  /** With a row for the pair at i, if i is a row: a dropped one is made active, any other refused; without a row one is added. */
  lemma CreateMeaning(r: Roll, q: Request, i: nat)
    requires ValidRoll(r) && i <= |r.rows|
    requires if i < |r.rows| then r.rows[i].student == q.student && r.rows[i].course == q.course
             else forall j :: 0 <= j < |r.rows| ==> r.rows[j].student != q.student || r.rows[j].course != q.course
    ensures Create(r, q) ==
            if !q.allowed then (r, Refused(NotAllowed))
            else if i == |r.rows| then
              (Roll(r.rows + [Enrolled(r.nextId, q.student, q.course, Active)], r.nextId + 1), Accepted(r.nextId))
            else if r.rows[i].status == Dropped then
              (Roll(r.rows[i := Enrolled(r.rows[i].id, q.student, q.course, Active)], r.nextId), Accepted(r.rows[i].id))
            else (r, Refused(AlreadyEnrolled))
  {
    var first := FirstFor(r.rows, q.student, q.course);
    assert i < |r.rows| ==> ForPair(r.rows[i], q.student, q.course);
    assert first < |r.rows| ==> ForPair(r.rows[first], q.student, q.course);
    assert first == i;
  }

  /** Two rows for the pair make the lookup raise, and nothing is written. */
  lemma CreateManyRows(r: Roll, q: Request, i: nat, j: nat)
    requires q.allowed && i < j < |r.rows|
    requires ForPair(r.rows[i], q.student, q.course) && ForPair(r.rows[j], q.student, q.course)
    ensures Create(r, q) == (r, ManyRows)
  {
  }

  lemma AppendKeepsValid(r: Roll, student: Uuid, course: Uuid)
    requires ValidRoll(r) && FirstFor(r.rows, student, course) == |r.rows|
    ensures ValidRoll(Roll(r.rows + [Enrolled(r.nextId, student, course, Active)], r.nextId + 1))
  {
  }

  lemma UpdateKeepsValid(r: Roll, id: Uuid, status: Option<EnrollmentStatus>)
    requires ValidRoll(r)
    ensures ValidRoll(Update(r, id, status))
  {
  }

  lemma {:induction false} WithoutMembers(rows: seq<Enrolled>, id: Uuid)
    ensures forall x :: x in Without(rows, id) <==> x in rows && x.id != id
  {
    if rows != [] {
      WithoutMembers(rows[1..], id);
    }
  }

  /** No row of the rest clashes with the first row, so neither does any row kept of it. */
  lemma WithoutKeepsApart(first: Enrolled, rest: seq<Enrolled>, id: Uuid)
    requires forall j :: 0 <= j < |rest| ==> rest[j].id != first.id && !ForPair(rest[j], first.student, first.course)
    ensures forall x :: x in Without(rest, id) ==> x.id != first.id && !ForPair(x, first.student, first.course)
  {
    hide Without;
    WithoutMembers(rest, id);
    forall x | x in Without(rest, id)
      ensures x.id != first.id && !ForPair(x, first.student, first.course)
    {
      var k :| 0 <= k < |rest| && rest[k] == x;
    }
  }

  /** With the primary key unique, removing an id takes out exactly the row found under it. */
  lemma {:induction false} WithoutAt(rows: seq<Enrolled>, id: Uuid, i: nat)
    requires i <= |rows| && (i < |rows| ==> rows[i].id == id)
    requires forall j :: 0 <= j < |rows| && j != i ==> rows[j].id != id
    ensures Without(rows, id) == if i < |rows| then rows[..i] + rows[i + 1..] else rows
  {
    if rows != [] {
      var rest := rows[1..];
      assert forall j :: 0 <= j < |rest| ==> rest[j] == rows[j + 1];
      if i == 0 {
        WithoutAt(rest, id, |rest|);
      } else {
        WithoutAt(rest, id, i - 1);
      }
    }
  }

  /** Removing takes out the one row with the id, if there is one and the caller may, and keeps the order of the others. */
  lemma RemoveMeaning(r: Roll, id: Uuid, allowed: bool, i: nat)
    requires ValidRoll(r) && i <= |r.rows|
    requires if i < |r.rows| then r.rows[i].id == id else forall j :: 0 <= j < |r.rows| ==> r.rows[j].id != id
    ensures Remove(r, id, allowed) ==
            if allowed && i < |r.rows| then Roll(r.rows[..i] + r.rows[i + 1..], r.nextId) else r
  {
    WithoutAt(r.rows, id, i);
  }

  /** A row is put back before rows it does not clash with. */
  lemma PrependKeepsValid(first: Enrolled, w: seq<Enrolled>, nextId: Uuid)
    requires ValidRoll(Roll(w, nextId)) && first.id < nextId
    requires forall x :: x in w ==> x.id != first.id && !ForPair(x, first.student, first.course)
    ensures ValidRoll(Roll([first] + w, nextId))
  {
    var all := [first] + w;
    forall i, j | 0 <= i < j < |all|
      ensures all[i].id != all[j].id && !ForPair(all[j], all[i].student, all[i].course)
    {
      assert all[j] == w[j - 1];
      if i > 0 {
        assert all[i] == w[i - 1];
      }
    }
  }

  lemma {:induction false} RemoveKeepsValid(rows: seq<Enrolled>, nextId: Uuid, id: Uuid)
    requires ValidRoll(Roll(rows, nextId))
    ensures ValidRoll(Roll(Without(rows, id), nextId))
  {
    if rows != [] {
      var first, rest := rows[0], rows[1..];
      assert forall j :: 0 <= j < |rest| ==> rest[j] == rows[j + 1];
      RemoveKeepsValid(rest, nextId, id);
      WithoutKeepsApart(first, rest, id);
      assert first.id < nextId by {
        assert Roll(rows, nextId).rows[0] == first;
      }
      var w := Without(rest, id);
      if first.id != id {
        PrependKeepsValid(first, w, nextId);
      }
    }
  }

  lemma {:induction false} BulkKeepsValid(r: Roll, requests: seq<Request>)
    requires ValidRoll(r)
    ensures ValidRoll(Bulk(r, requests))
  {
    if requests != [] {
      BulkKeepsValid(r, requests[..|requests| - 1]);
      CreateKeepsValid(Bulk(r, requests[..|requests| - 1]), requests[|requests| - 1]);
    }
  }

  /** The status under which a student is on a course, if at all. */
  function StatusOf(r: Roll, student: Uuid, course: Uuid): Option<EnrollmentStatus> {
    var i := FirstFor(r.rows, student, course);
    if i == |r.rows| then None else Some(r.rows[i].status)
  }

  function AfterRequest(status: Option<EnrollmentStatus>, allowed: bool): Option<EnrollmentStatus> {
    if allowed && (status.None? || status.value.Dropped?) then Some(Active) else status
  }

  lemma StatusAt(r: Roll, i: nat)
    requires ValidRoll(r) && i < |r.rows|
    ensures StatusOf(r, r.rows[i].student, r.rows[i].course) == Some(r.rows[i].status)
  {
    var j := FirstFor(r.rows, r.rows[i].student, r.rows[i].course);
    assert j == i;
  }

  /** One request changes the standing of its own pair only. */
  lemma CreateStatus(r: Roll, q: Request, student: Uuid, course: Uuid)
    requires ValidRoll(r)
    ensures StatusOf(Create(r, q).0, student, course)
         == if student == q.student && course == q.course then AfterRequest(StatusOf(r, student, course), q.allowed)
            else StatusOf(r, student, course)
  {
    CreateKeepsValid(r, q);
    var r' := Create(r, q).0;
    var i := FirstFor(r.rows, student, course);
    if i < |r.rows| {
      assert ForPair(r'.rows[i], student, course);
      StatusAt(r', i);
    } else if student == q.student && course == q.course && q.allowed {
      StatusAt(r', i);
    } else {
      assert forall j :: 0 <= j < |r'.rows| ==> !ForPair(r'.rows[j], student, course);
    }
  }

  ghost predicate Requested(requests: seq<Request>, student: Uuid, course: Uuid) {
    Request(student, course, true) in requests
  }

  /** After a bulk run every pair stands as if its allowed requests had been one. */
  lemma {:induction false} BulkStatus(r: Roll, requests: seq<Request>, student: Uuid, course: Uuid)
    requires ValidRoll(r)
    ensures StatusOf(Bulk(r, requests), student, course)
         == AfterRequest(StatusOf(r, student, course), Requested(requests, student, course))
  {
    if requests != [] {
      var init, last := requests[..|requests| - 1], requests[|requests| - 1];
      BulkStatus(r, init, student, course);
      BulkKeepsValid(r, init);
      CreateStatus(Bulk(r, init), last, student, course);
      assert requests == init + [last];
    }
  }

  /** r' keeps the rows of r in place, with some dropped ones active again, and adds others behind. */
  ghost predicate Follows(r: Roll, r': Roll) {
    |r.rows| <= |r'.rows| &&
    forall j :: 0 <= j < |r.rows| ==>
      r'.rows[j] == r.rows[j] || (r.rows[j].status.Dropped? && r'.rows[j] == r.rows[j].(status := Active))
  }

  /** The row with this id is active in r' and was absent or dropped in r. */
  ghost predicate Gained(r: Roll, r': Roll, id: Uuid) {
    exists j :: 0 <= j < |r'.rows| && r'.rows[j].id == id && r'.rows[j].status == Active &&
                (j >= |r.rows| || r.rows[j].status == Dropped)
  }

  lemma CreateGains(r: Roll, q: Request, id: Uuid)
    requires ValidRoll(r)
    ensures Follows(r, Create(r, q).0)
    ensures Gained(r, Create(r, q).0, id) <==> Create(r, q).1 == Accepted(id)
    ensures forall j :: |r.rows| <= j < |Create(r, q).0.rows| ==> Create(r, q).0.rows[j].status == Active
  {
    CreateMeaning(r, q, FirstFor(r.rows, q.student, q.course));
    var i, r' := FirstFor(r.rows, q.student, q.course), Create(r, q).0;
    if Create(r, q).1 == Accepted(id) {
      assert r'.rows[i].id == id;
    }
  }

  lemma GainsAddUp(r: Roll, r1: Roll, r2: Roll, id: Uuid)
    requires ValidRoll(r2) && Follows(r, r1) && Follows(r1, r2)
    requires forall j :: |r.rows| <= j < |r1.rows| ==> r1.rows[j].status == Active
    ensures Follows(r, r2)
    ensures Gained(r, r2, id) <==> Gained(r, r1, id) || Gained(r1, r2, id)
  {
    if j :| 0 <= j < |r2.rows| && r2.rows[j].id == id && r2.rows[j].status == Active && (j >= |r.rows| || r.rows[j].status == Dropped) {
      assert j < |r1.rows| && r1.rows[j].status == Active ==> Gained(r, r1, id);
      assert j >= |r1.rows| || r1.rows[j].status == Dropped ==> Gained(r1, r2, id);
    }
    if j :| 0 <= j < |r1.rows| && r1.rows[j].id == id && r1.rows[j].status == Active && (j >= |r.rows| || r.rows[j].status == Dropped) {
      assert r2.rows[j] == r1.rows[j];
    }
    if j :| 0 <= j < |r2.rows| && r2.rows[j].id == id && r2.rows[j].status == Active && (j >= |r1.rows| || r1.rows[j].status == Dropped) {
      assert j >= |r.rows| || r.rows[j].status == Dropped;
    }
  }

  /** A bulk run returns the ids of just the enrollments that it makes active. */
  lemma {:induction false} AcceptedIdsMeaning(r: Roll, requests: seq<Request>, id: Uuid)
    requires ValidRoll(r)
    ensures id in AcceptedIds(r, requests) <==> Gained(r, Bulk(r, requests), id)
    ensures Follows(r, Bulk(r, requests))
    ensures forall j :: |r.rows| <= j < |Bulk(r, requests).rows| ==> Bulk(r, requests).rows[j].status == Active
  {
    if requests != [] {
      var init, last := requests[..|requests| - 1], requests[|requests| - 1];
      AcceptedIdsMeaning(r, init, id);
      BulkKeepsValid(r, init);
      BulkKeepsValid(r, requests);
      CreateGains(Bulk(r, init), last, id);
      GainsAddUp(r, Bulk(r, init), Bulk(r, requests), id);
    }
  }

  // ---- the insert as written -----------------------------------------------

  predicate NeedsInsert(r: Roll, q: Request) {
    q.allowed && FirstFor(r.rows, q.student, q.course) == |r.rows|
  }

  /** create with the insert that raises; None is that exception, which is no ValueError. */
  function CreateAsWritten(r: Roll, q: Request): (Roll, Option<Reply>) {
    if NeedsInsert(r, q) then (r, None)
    else
      var (r', reply) := Create(r, q);
      (r', Some(reply))
  }

  /** bulk_create with that insert: the exception ends the run, and what was committed before it stays. */
  function BulkAsWritten(r: Roll, requests: seq<Request>): (result: (Roll, bool))
    ensures |result.0.rows| == |r.rows|
  {
    if requests == [] then (r, true)
    else
      var (r', alive) := BulkAsWritten(r, requests[..|requests| - 1]);
      if !alive then (r', false)
      else
        var (r'', reply) := CreateAsWritten(r', requests[|requests| - 1]);
        (r'', reply.Some?)
  }

  /** Every allowed request is for a pair that has a row already. */
  ghost predicate NoneAbsent(r: Roll, requests: seq<Request>) {
    forall q :: q in requests && q.allowed ==> StatusOf(r, q.student, q.course).Some?
  }

  lemma {:induction false} BulkAsWrittenAlive(r: Roll, requests: seq<Request>)
    requires ValidRoll(r)
    ensures BulkAsWritten(r, requests).1 <==> NoneAbsent(r, requests)
    ensures NoneAbsent(r, requests) ==> BulkAsWritten(r, requests).0 == Bulk(r, requests)
  {
    if requests != [] {
      var init, last := requests[..|requests| - 1], requests[|requests| - 1];
      assert requests == init + [last];
      BulkAsWrittenAlive(r, init);
      BulkStatus(r, init, last.student, last.course);
    }
  }

  lemma {:induction false} BulkGrows(r: Roll, requests: seq<Request>)
    requires ValidRoll(r)
    ensures |Bulk(r, requests).rows| >= |r.rows|
    ensures !NoneAbsent(r, requests) ==> |Bulk(r, requests).rows| > |r.rows|
  {
    if requests != [] {
      var init, last := requests[..|requests| - 1], requests[|requests| - 1];
      assert requests == init + [last];
      BulkGrows(r, init);
      BulkKeepsValid(r, init);
      BulkStatus(r, init, last.student, last.course);
    }
  }

  /**
    As written the bulk run does what it is meant to do, and does not raise,
    exactly when no allowed request is for a pair without a row.
  */
  lemma BulkAsWrittenExact(r: Roll, requests: seq<Request>)
    requires ValidRoll(r)
    ensures BulkAsWritten(r, requests).1 <==> NoneAbsent(r, requests)
    ensures BulkAsWritten(r, requests).0 == Bulk(r, requests) <==> NoneAbsent(r, requests)
  {
    BulkAsWrittenAlive(r, requests);
    BulkGrows(r, requests);
  }

  /** At the first allowed request for a pair without a row it ends, and what was done before stays. */
  lemma BulkEndsAt(r: Roll, requests: seq<Request>, k: nat)
    requires ValidRoll(r) && k < |requests| && NoneAbsent(r, requests[..k])
    requires requests[k].allowed && StatusOf(r, requests[k].student, requests[k].course).None?
    ensures BulkAsWritten(r, requests) == (Bulk(r, requests[..k]), false)
  {
    BulkAsWrittenAlive(r, requests[..k]);
    BulkStatus(r, requests[..k], requests[k].student, requests[k].course);
    assert requests[..k + 1][..k] == requests[..k];
    EndedStays(r, requests, k + 1);
  }

  lemma {:induction false} BulkAsWrittenKeepsValid(r: Roll, requests: seq<Request>)
    requires ValidRoll(r)
    ensures ValidRoll(BulkAsWritten(r, requests).0)
  {
    if requests != [] {
      var init := requests[..|requests| - 1];
      BulkAsWrittenKeepsValid(r, init);
      CreateKeepsValid(BulkAsWritten(r, init).0, requests[|requests| - 1]);
    }
  }

  /** So a first enrollment, alone or in bulk, adds no row. */
  lemma FirstEnrollmentRaises(student: Uuid, course: Uuid)
    ensures CreateAsWritten(Roll([], 0), Request(student, course, true)) == (Roll([], 0), None)
    ensures BulkAsWritten(Roll([], 0), [Request(student, course, true)]) == (Roll([], 0), false)
  {
    var requests := [Request(student, course, true)];
    assert requests[0] in requests;
    BulkAsWrittenExact(Roll([], 0), requests);
  }

  // ---- the service ---------------------------------------------------------

  class EnrollmentService {
    var rows: seq<Enrolled>
    var nextId: Uuid

    ghost function Table(): Roll
      reads this
    {
      Roll(rows, nextId)
    }

    constructor ()
      ensures Table() == Roll([], 0) && ValidRoll(Table())
    {
      rows, nextId := [], 0;
    }

    /** insertWorks: the insert is the one that is meant; otherwise it raises, as written. */
    method CreateOne(q: Request, insertWorks: bool) returns (reply: Option<Reply>)
      modifies this
      ensures insertWorks ==> (Table(), reply) == (Create(old(Table()), q).0, Some(Create(old(Table()), q).1))
      ensures !insertWorks ==> (Table(), reply) == CreateAsWritten(old(Table()), q)
    {
      if !q.allowed {
        return Some(Refused(NotAllowed));
      }
      var i := 0;
      while i < |rows| && !ForPair(rows[i], q.student, q.course)
        invariant 0 <= i <= |rows|
        invariant forall j :: 0 <= j < i ==> !ForPair(rows[j], q.student, q.course)
      {
        i := i + 1;
      }
      assert i == FirstFor(rows, q.student, q.course);
      if i == |rows| {
        if !insertWorks {
          return None;
        }
        reply := Some(Accepted(nextId));
        rows := rows + [Enrolled(nextId, q.student, q.course, Active)];
        nextId := nextId + 1;
        return;
      }
      if exists j :: i < j < |rows| && ForPair(rows[j], q.student, q.course) {
        return Some(ManyRows);
      }
      var row := rows[i];
      if !row.status.Dropped? {
        return Some(Refused(AlreadyEnrolled));
      }
      rows := rows[i := row.(status := Active)];
      reply := Some(Accepted(row.id));
    }

    /** The position of the row with this primary key, or the end of the table. */
    method Find(id: Uuid) returns (i: nat)
      ensures i <= |rows| && (i < |rows| ==> rows[i].id == id)
      ensures forall j :: 0 <= j < i ==> rows[j].id != id
    {
      i := 0;
      while i < |rows| && rows[i].id != id
        invariant 0 <= i <= |rows|
        invariant forall j :: 0 <= j < i ==> rows[j].id != id
      {
        i := i + 1;
      }
    }

    method UpdateOne(id: Uuid, status: Option<EnrollmentStatus>) returns (found: bool)
      requires ValidRoll(Table())
      modifies this
      ensures ValidRoll(Table())
      ensures found <==> exists j :: 0 <= j < |old(rows)| && old(rows)[j].id == id
      ensures Table() == Update(old(Table()), id, status)
    {
      UpdateKeepsValid(Table(), id, status);
      var i := Find(id);
      found := i < |rows|;
      if found && status.Some? {
        rows := rows[i := rows[i].(status := status.value)];
      }
    }

    /** allowed: the caller is no lecturer, or the lecturer of the course. */
    method RemoveOne(id: Uuid, allowed: bool) returns (removed: bool)
      requires ValidRoll(Table())
      modifies this
      ensures ValidRoll(Table())
      ensures removed <==> allowed && exists j :: 0 <= j < |old(rows)| && old(rows)[j].id == id
      ensures Table() == Remove(old(Table()), id, allowed)
    {
      RemoveKeepsValid(rows, nextId, id);
      var i := Find(id);
      WithoutAt(rows, id, i);
      removed := i < |rows| && allowed;
      if removed {
        rows := rows[..i] + rows[i + 1..];
      }
    }

    /** bulk_create: refused requests are skipped, accepted ones are returned in order, and a raising insert ends the run. */
    method CreateMany(requests: seq<Request>, insertWorks: bool) returns (accepted: Option<seq<Uuid>>)
      requires ValidRoll(Table())
      modifies this
      ensures ValidRoll(Table())
      ensures Table() == if insertWorks then Bulk(old(Table()), requests) else BulkAsWritten(old(Table()), requests).0
      ensures accepted == if insertWorks || NoneAbsent(old(Table()), requests) then Some(AcceptedIds(old(Table()), requests)) else None
    {
      var ids := [];
      for k := 0 to |requests|
        invariant Table() == Bulk(old(Table()), requests[..k])
        invariant !insertWorks ==> BulkAsWritten(old(Table()), requests[..k]) == (Table(), true)
        invariant ValidRoll(Table())
        invariant ids == AcceptedIds(old(Table()), requests[..k])
      {
        assert requests[..k + 1][..k] == requests[..k];
        CreateKeepsValid(Table(), requests[k]);
        var reply := CreateOne(requests[k], insertWorks);
        if reply.None? {
          EndedStays(old(Table()), requests, k + 1);
          BulkAsWrittenAlive(old(Table()), requests);
          return None;
        }
        if reply.value.Accepted? {
          ids := ids + [reply.value.id];
        }
      }
      assert requests[..|requests|] == requests;
      accepted := Some(ids);
      BulkAsWrittenAlive(old(Table()), requests);
    }
  }

  lemma {:induction false} EndedStays(r: Roll, requests: seq<Request>, k: nat)
    requires k <= |requests| && !BulkAsWritten(r, requests[..k]).1
    ensures BulkAsWritten(r, requests) == BulkAsWritten(r, requests[..k])
  {
    if k < |requests| {
      assert requests[..|requests| - 1][..k] == requests[..k];
      EndedStays(r, requests[..|requests| - 1], k);
    } else {
      assert requests[..k] == requests;
    }
  }

  function AcceptedIds(r: Roll, requests: seq<Request>): seq<Uuid> {
    if requests == [] then []
    else
      var init := requests[..|requests| - 1];
      var reply := Create(Bulk(r, init), requests[|requests| - 1]).1;
      AcceptedIds(r, init) + if reply.Accepted? then [reply.id] else []
  }
}
