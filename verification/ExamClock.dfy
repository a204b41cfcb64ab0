/** The status of exams over time. Times are seconds; a stored duration counts hundredths of an hour. */
module ExamClock {
  import opened Common

  datatype ExamStatus = NotStarted | InProgress | Finished

  /** An exam row as the status updater reads it; aware is false for a start time without a time zone. */
  datatype ExamRow = ExamRow(start: Option<int>, aware: bool, duration: nat, status: ExamStatus)

  const SECONDS_PER_UNIT := 36

  predicate Scheduled(row: ExamRow) {
    row.start.Some? && row.aware && row.duration > 0
  }

  function End(row: ExamRow): int
    requires row.start.Some?
  {
    row.start.value + SECONDS_PER_UNIT * row.duration
  }

  /** One exam in one run of the status updater. */
  function Tick(row: ExamRow, now: int): ExamRow {
    if !Scheduled(row) then row
    else
      match row.status
      case NotStarted =>
        if row.start.value <= now < End(row) then row.(status := InProgress)
        else if now >= End(row) then row.(status := Finished)
        else row
      case InProgress => if now >= End(row) then row.(status := Finished) else row
      case Finished => row
  }

  // ---- the status over any sequence of ticks -------------------------------

  function Rank(s: ExamStatus): nat {
    match s case NotStarted => 0 case InProgress => 1 case Finished => 2
  }

  function Later(a: ExamStatus, b: ExamStatus): ExamStatus {
    if Rank(a) >= Rank(b) then a else b
  }

  /** Where a moment lies: before the exam, within it, or at or after its end. */
  function Phase(row: ExamRow, now: int): ExamStatus
    requires row.start.Some?
  {
    if now < row.start.value then NotStarted else if now < End(row) then InProgress else Finished
  }

  /** A tick moves the status to the phase of its time, and never back. */
  lemma TickIsLaterPhase(row: ExamRow, now: int)
    requires Scheduled(row)
    ensures Tick(row, now) == row.(status := Later(row.status, Phase(row, now)))
  {
  }

  /** An exam runs from its start for 36 seconds per hundredth of an hour; without either, or a time zone, it is left alone. */
  lemma TickMeaning(row: ExamRow, now: int)
    ensures row.start == None || !row.aware || row.duration == 0 ==> Tick(row, now) == row
    ensures row.start != None && row.aware && row.duration > 0 ==>
              Tick(row, now) == row.(status :=
                if row.start.value + 36 * row.duration <= now then Finished
                else if row.start.value <= now && row.status == NotStarted then InProgress
                else row.status)
  {
  }

  function Ticks(row: ExamRow, times: seq<int>): ExamRow
    decreases |times|
  {
    if times == [] then row else Ticks(Tick(row, times[0]), times[1..])
  }

  function Latest(times: seq<int>): int
    requires times != []
  {
    if |times| == 1 then times[0]
    else if times[0] >= Latest(times[1..]) then times[0] else Latest(times[1..])
  }

  lemma LaterPhase(row: ExamRow, a: int, b: int)
    requires row.start.Some? && row.duration > 0 && a <= b
    ensures Rank(Phase(row, a)) <= Rank(Phase(row, b))
  {
  }

  /** Whatever the order of the ticks, only the latest time counts. */
  lemma {:induction false} OnlyLatestTickCounts(row: ExamRow, times: seq<int>)
    requires Scheduled(row) && times != []
    ensures Ticks(row, times) == Tick(row, Latest(times))
    ensures Ticks(row, times) == row.(status := Later(row.status, Phase(row, Latest(times))))
    decreases |times|
  {
    TickIsLaterPhase(row, times[0]);
    TickIsLaterPhase(row, Latest(times));
    if |times| == 1 {
      assert Ticks(row, times) == Ticks(Tick(row, times[0]), []);
    } else {
      var next := Tick(row, times[0]);
      OnlyLatestTickCounts(next, times[1..]);
      TickIsLaterPhase(next, Latest(times[1..]));
      if times[0] >= Latest(times[1..]) {
        LaterPhase(row, Latest(times[1..]), times[0]);
      } else {
        LaterPhase(row, times[0], Latest(times[1..]));
      }
    }
  }

  /** An exam not yet started shows the phase of the last of its ticks when time does not run back. */
  lemma StatusIsPhaseOfLastTick(row: ExamRow, times: seq<int>)
    requires Scheduled(row) && row.status.NotStarted? && times != []
    requires forall i, j :: 0 <= i < j < |times| ==> times[i] <= times[j]
    ensures Ticks(row, times).status == Phase(row, times[|times| - 1])
  {
    OnlyLatestTickCounts(row, times);
    LatestOfSorted(times);
  }

  lemma {:induction false} LatestOfSorted(times: seq<int>)
    requires times != [] && forall i, j :: 0 <= i < j < |times| ==> times[i] <= times[j]
    ensures Latest(times) == times[|times| - 1]
  {
    if |times| > 1 {
      LatestOfSorted(times[1..]);
    }
  }

  // ---- the updater over all rows -------------------------------------------

  function CountMoves(before: seq<ExamRow>, now: int, to: ExamStatus): nat {
    if before == [] then 0
    else
      var last := before[|before| - 1];
      CountMoves(before[..|before| - 1], now, to)
      + if last.status != to && Tick(last, now).status == to then 1 else 0
  }

  function CountSkipped(rows: seq<ExamRow>): nat {
    if rows == [] then 0
    else
      var last := rows[|rows| - 1];
      CountSkipped(rows[..|rows| - 1]) + if last.start.Some? && !Scheduled(last) then 1 else 0
  }

  predicate Moves(row: ExamRow, now: int, to: ExamStatus) {
    row.status != to && Tick(row, now).status == to
  }

  ghost function Moved(rows: seq<ExamRow>, now: int, to: ExamStatus): set<nat> {
    set i: nat | i < |rows| && Moves(rows[i], now, to)
  }

  /** A counter counts the exams that this tick moves to a status. */
  lemma {:induction false} CountMovesMeaning(before: seq<ExamRow>, now: int, to: ExamStatus)
    ensures CountMoves(before, now, to) == |Moved(before, now, to)|
  {
    hide Tick;
    if before == [] {
      assert Moved(before, now, to) == {};
    } else {
      var n := |before| - 1;
      CountMovesMeaning(before[..n], now, to);
      MovedLast(before, now, to);
    }
  }

  lemma MovedLast(rows: seq<ExamRow>, now: int, to: ExamStatus)
    requires rows != []
    ensures var n := |rows| - 1;
            |Moved(rows, now, to)| == |Moved(rows[..n], now, to)| + if Moves(rows[n], now, to) then 1 else 0
  {
    hide Moves;
    var n := |rows| - 1;
    var earlier := Moved(rows[..n], now, to);
    assert n !in earlier;
    assert Moved(rows, now, to) == if Moves(rows[n], now, to) then earlier + {n} else earlier;
  }

  ghost function SkippedRows(rows: seq<ExamRow>): set<nat> {
    set i: nat | i < |rows| && rows[i].start != None && (!rows[i].aware || rows[i].duration == 0)
  }

  /** And the skipped ones are those with a start time, but no time zone or no duration. */
  lemma {:induction false} CountSkippedMeaning(rows: seq<ExamRow>)
    ensures CountSkipped(rows) == |SkippedRows(rows)|
  {
    if rows == [] {
      assert SkippedRows(rows) == {};
    } else {
      var n := |rows| - 1;
      CountSkippedMeaning(rows[..n]);
      SkippedLast(rows);
    }
  }

  lemma SkippedLast(rows: seq<ExamRow>)
    requires rows != []
    ensures var n := |rows| - 1;
            |SkippedRows(rows)| == |SkippedRows(rows[..n])| +
              if rows[n].start != None && (!rows[n].aware || rows[n].duration == 0) then 1 else 0
  {
    var n := |rows| - 1;
    var earlier := SkippedRows(rows[..n]);
    assert n !in earlier;
    assert SkippedRows(rows) == if n in SkippedRows(rows) then earlier + {n} else earlier;
  }

  /** _update_exam_statuses, with the counters it logs. */
  method UpdateExamStatuses(exams: array<ExamRow>, now: int) returns (activated: nat, completed: nat, skipped: nat)
    modifies exams
    ensures forall i :: 0 <= i < exams.Length ==> exams[i] == Tick(old(exams[i]), now)
    ensures activated == CountMoves(old(exams[..]), now, InProgress)
    ensures completed == CountMoves(old(exams[..]), now, Finished)
    ensures skipped == CountSkipped(old(exams[..]))
  {
    activated, completed, skipped := 0, 0, 0;
    ghost var before := exams[..];
    var k := 0;
    while k < exams.Length
      invariant 0 <= k <= exams.Length
      invariant forall i :: 0 <= i < k ==> exams[i] == Tick(before[i], now)
      invariant forall i :: k <= i < exams.Length ==> exams[i] == before[i]
      invariant activated == CountMoves(before[..k], now, InProgress)
      invariant completed == CountMoves(before[..k], now, Finished)
      invariant skipped == CountSkipped(before[..k])
    {
      assert before[..k + 1][..k] == before[..k];
      var row := exams[k];
      if row.start.Some? {
        if row.duration == 0 || !row.aware {
          skipped := skipped + 1;
        } else {
          var start := row.start.value;
          var end := start + SECONDS_PER_UNIT * row.duration;
          if row.status.NotStarted? {
            if start <= now < end {
              exams[k] := row.(status := InProgress);
              activated := activated + 1;
            } else if now >= end {
              exams[k] := row.(status := Finished);
              completed := completed + 1;
            }
          } else if row.status.InProgress? && now >= end {
            exams[k] := row.(status := Finished);
            completed := completed + 1;
          }
        }
      }
      k := k + 1;
    }
    assert before[..|before|] == before;
  }

  // ---- the force-submit trigger --------------------------------------------

  /** A scheduler job: the status updater or the force-submit trigger, at a time. */
  datatype Job = UpdateJob(at: int) | TriggerJob(at: int)

  function AfterJobs(row: ExamRow, jobs: seq<Job>): ExamRow {
    if jobs == [] then row
    else
      var earlier := AfterJobs(row, jobs[..|jobs| - 1]);
      var last := jobs[|jobs| - 1];
      if last.UpdateJob? then Tick(earlier, last.at) else earlier
  }

  /** Does the job at position k emit the event that force-submits the exam? */
  predicate Emits(row: ExamRow, jobs: seq<Job>, k: nat)
    requires k < |jobs|
  {
    jobs[k].TriggerJob? && Scheduled(row) && AfterJobs(row, jobs[..k]).status.InProgress? && jobs[k].at >= End(row)
  }

  ghost predicate UpdateSince(jobs: seq<Job>, k: nat, time: int)
    requires k <= |jobs|
  {
    exists i :: 0 <= i < k && jobs[i].UpdateJob? && jobs[i].at >= time
  }

  lemma {:induction false} StatusAfterJobs(row: ExamRow, jobs: seq<Job>)
    requires Scheduled(row) && row.status.NotStarted?
    ensures AfterJobs(row, jobs) == row.(status :=
      if UpdateSince(jobs, |jobs|, End(row)) then Finished
      else if UpdateSince(jobs, |jobs|, row.start.value) then InProgress else NotStarted)
  {
    if jobs != [] {
      var n := |jobs| - 1;
      StatusAfterJobs(row, jobs[..n]);
      forall time
        ensures UpdateSince(jobs, |jobs|, time) <==>
                UpdateSince(jobs[..n], n, time) || (jobs[n].UpdateJob? && jobs[n].at >= time)
      {
        if i :| 0 <= i < n && jobs[..n][i].UpdateJob? && jobs[..n][i].at >= time {
          assert jobs[i].UpdateJob? && jobs[i].at >= time;
        }
        if i :| 0 <= i < |jobs| && jobs[i].UpdateJob? && jobs[i].at >= time && i < n {
          assert jobs[..n][i].UpdateJob? && jobs[..n][i].at >= time;
        }
      }
    }
  }

  /**
    The trigger emits exactly when it runs at or after the end, some update
    has seen the exam running, and no update has yet seen it over.
  */
  lemma TriggerEmitsExactly(row: ExamRow, jobs: seq<Job>, k: nat)
    requires Scheduled(row) && row.status.NotStarted? && k < |jobs|
    ensures Emits(row, jobs, k) <==>
            jobs[k].TriggerJob? && jobs[k].at >= End(row) &&
            UpdateSince(jobs, k, row.start.value) && !UpdateSince(jobs, k, End(row))
  {
    StatusAfterJobs(row, jobs[..k]);
    forall time
      ensures UpdateSince(jobs[..k], k, time) <==> UpdateSince(jobs, k, time)
    {
      if i :| 0 <= i < k && jobs[i].UpdateJob? && jobs[i].at >= time {
        assert jobs[..k][i].UpdateJob? && jobs[..k][i].at >= time;
      }
      if i :| 0 <= i < k && jobs[..k][i].UpdateJob? && jobs[..k][i].at >= time {
        assert jobs[i].UpdateJob? && jobs[i].at >= time;
      }
    }
  }

  /** So an update right after the end leaves the exam without any force submission. */
  lemma FinishedBeforeTrigger(row: ExamRow, jobs: seq<Job>)
    requires row == ExamRow(Some(0), true, 100, NotStarted)
    requires jobs == [UpdateJob(0), UpdateJob(3600), TriggerJob(3600)]
    ensures AfterJobs(row, jobs).status.Finished?
    ensures forall k: nat :: k < |jobs| ==> !Emits(row, jobs, k)
  {
    StatusAfterJobs(row, jobs);
    assert jobs[1].UpdateJob? && jobs[1].at >= End(row);
    forall k: nat | k < |jobs|
      ensures !Emits(row, jobs, k)
    {
      TriggerEmitsExactly(row, jobs, k);
    }
  }
}

/** Durations entered in hours and minutes, stored in hundredths of an hour. */
module ExamDuration {
  import opened Common
  import opened ExamClock

  /** Numeric(5,2): minutes over 60, rounded to the nearest hundredth of an hour; there are no ties. */
  function Stored(minutes: int): int {
    (10 * minutes + 3) / 6
  }

  lemma StoredIsNearest(minutes: int)
    ensures -1 <= 3 * Stored(minutes) - 5 * minutes <= 1
  {
  }

  /** to_dict: hours and rounded minutes. */
  function ShownHours(stored: nat): nat {
    stored / 100
  }

  function ShownMinutes(stored: nat): nat {
    (6 * (stored % 100) + 5) / 10
  }

  /** update() reads the minutes it was not given by truncation. */
  function KeptMinutes(stored: nat): nat {
    6 * (stored % 100) / 10
  }

  /** What was entered is shown, for every hour and every minute of the hour. */
  lemma ShownAsEntered(hours: nat, minutes: nat)
    requires minutes < 60
    ensures Stored(60 * hours + minutes) >= 0
    ensures ShownHours(Stored(60 * hours + minutes)) == hours
    ensures ShownMinutes(Stored(60 * hours + minutes)) == minutes
  {
    StoredSplits(hours, minutes);
  }

  lemma StoredSplits(hours: nat, minutes: nat)
    requires minutes < 60
    ensures Stored(60 * hours + minutes) == 100 * hours + Stored(minutes)
    ensures 0 <= Stored(minutes) < 99
  {
  }

  /** Truncation loses a minute exactly from every minute count that leaves 2 when divided by 3. */
  lemma KeptMinutesLose(hours: nat, minutes: nat)
    requires minutes < 60
    ensures Stored(60 * hours + minutes) >= 0
    ensures KeptMinutes(Stored(60 * hours + minutes)) == AfterLoss(minutes)
  {
    StoredSplits(hours, minutes);
    var r := Stored(minutes);
    assert (100 * hours + r) % 100 == r;
    LossOfMinute(minutes);
  }

  function AfterLoss(minutes: nat): nat {
    if minutes % 3 == 2 then minutes - 1 else minutes
  }

  lemma LossOfMinute(minutes: nat)
    requires minutes < 60
    ensures 6 * Stored(minutes) / 10 == AfterLoss(minutes)
  {
  }

  /** The time fields of an exam row. */
  datatype Times = Times(start: Option<int>, duration: nat, endTime: Option<int>)

  /** The fields of an update that were given; start may be given as null. */
  datatype Edit = Edit(start: Option<Option<int>>, hours: Option<int>, minutes: Option<int>)

  predicate StorableDuration(stored: int) {
    0 < stored < 100000
  }

  function EditedMinutes(t: Times, e: Edit): int {
    60 * (if e.hours.Some? then e.hours.value else t.duration / 100) +
    (if e.minutes.Some? then e.minutes.value else KeptMinutes(t.duration))
  }

  /** The end time uses the duration as entered, the row keeps it rounded. */
  function EndAfter(start: Option<int>, seconds: int, otherwise: Option<int>): Option<int> {
    if start.Some? then Some(start.value + seconds) else otherwise
  }

  function ApplyEdit(t: Times, e: Edit): Times {
    var start := if e.start.Some? then e.start.value else t.start;
    if e.hours.None? && e.minutes.None? then
      Times(start, t.duration, EndAfter(start, SECONDS_PER_UNIT * t.duration, t.endTime))
    else
      var minutes := EditedMinutes(t, e);
      if !StorableDuration(Stored(minutes)) then t
      else Times(start, Stored(minutes), EndAfter(start, 60 * minutes, t.endTime))
  }

  function Create(start: Option<int>, hours: int, minutes: int): Option<Times> {
    var total := 60 * hours + minutes;
    if StorableDuration(Stored(total)) then Some(Times(start, Stored(total), EndAfter(start, 60 * total, None))) else None
  }

  predicate HoursOnly(e: Edit) {
    e.hours.Some? && e.minutes.None?
  }

  /** The column holds from one minute to under a thousand hours. */
  lemma StorableMinutes(minutes: int)
    ensures StorableDuration(Stored(minutes)) <==> 1 <= minutes <= 59999
  {
  }

  /**
    An update takes what it gives and keeps the rest, minutes after their loss.
    The end follows from the start and the duration as entered; a duration that
    does not fit leaves the row as it was.
  */
  lemma EditMeaning(t: Times, hours: nat, minutes: nat, e: Edit)
    requires minutes < 60 && t.duration == Stored(60 * hours + minutes)
    ensures var start := if e.start.Some? then e.start.value else t.start;
            var h := if e.hours.Some? then e.hours.value else hours;
            var m := if e.minutes.Some? then e.minutes.value else if minutes % 3 == 2 then minutes - 1 else minutes;
            var t' := ApplyEdit(t, e);
            if e.hours.None? && e.minutes.None? then
              t' == Times(start, t.duration, if start.Some? then Some(start.value + 36 * t.duration) else t.endTime)
            else if !(1 <= 60 * h + m <= 59999) then t' == t
            else
              t' == Times(start, t'.duration, if start.Some? then Some(start.value + 60 * (60 * h + m)) else t.endTime) &&
              (h >= 0 && 0 <= m < 60 ==> ShownHours(t'.duration) == h && ShownMinutes(t'.duration) == m) &&
              -1 <= 3 * t'.duration - 5 * (60 * h + m) <= 1
  {
    hide Stored, EditedMinutes, StorableDuration, ShownHours, ShownMinutes;
    var h := if e.hours.Some? then e.hours.value else hours;
    var m := if e.minutes.Some? then e.minutes.value else if minutes % 3 == 2 then minutes - 1 else minutes;
    EditedTotal(t, hours, minutes, e);
    assert EditedMinutes(t, e) == 60 * h + m;
    StorableMinutes(60 * h + m);
    StoredIsNearest(60 * h + m);
    if h >= 0 && 0 <= m < 60 {
      ShownAsEntered(h, m);
    }
  }

  lemma EditedTotal(t: Times, hours: nat, minutes: nat, e: Edit)
    requires minutes < 60 && t.duration == Stored(60 * hours + minutes)
    ensures EditedMinutes(t, e) ==
            60 * (if e.hours.Some? then e.hours.value else hours) +
            if e.minutes.Some? then e.minutes.value else if minutes % 3 == 2 then minutes - 1 else minutes
  {
    hide Stored, KeptMinutes;
    KeptMinutesLose(hours, minutes);
    HoursKept(hours, minutes);
  }

  lemma HoursKept(hours: nat, minutes: nat)
    requires minutes < 60
    ensures Stored(60 * hours + minutes) / 100 == hours
  {
    StoredSplits(hours, minutes);
  }

  /** A new exam shows what was entered and ends that much after its start. */
  lemma CreateMeaning(start: Option<int>, hours: nat, minutes: nat)
    requires minutes < 60
    ensures var t := Create(start, hours, minutes);
            var total := 60 * hours + minutes;
            if !(1 <= total <= 59999) then t == None
            else
              t.Some? && ShownHours(t.value.duration) == hours && ShownMinutes(t.value.duration) == minutes &&
              t.value == Times(start, t.value.duration, if start.Some? then Some(start.value + 60 * total) else None)
  {
    StorableMinutes(60 * hours + minutes);
    ShownAsEntered(hours, minutes);
  }

  /** One update that gives only the hours keeps the minutes after their loss, or fails as a whole. */
  lemma HoursOnlyStep(t: Times, hours: nat, minutes: nat, e: Edit)
    requires minutes < 60 && t.duration == Stored(60 * hours + minutes) && HoursOnly(e)
    ensures var stored := Stored(60 * e.hours.value + AfterLoss(minutes));
            if StorableDuration(stored) then e.hours.value >= 0 && ApplyEdit(t, e).duration == stored
            else ApplyEdit(t, e) == t
  {
    KeptMinutesLose(hours, minutes);
    assert EditedMinutes(t, e) == 60 * e.hours.value + AfterLoss(minutes);
  }

  /** Any number of updates that give only the hours: at most one minute is lost in all, and none is gained. */
  lemma {:induction false} HoursOnlyLoseAtMostOne(t: Times, hours: nat, minutes: nat, edits: seq<Edit>)
    requires minutes < 60 && t.duration == Stored(60 * hours + minutes)
    requires forall i :: 0 <= i < |edits| ==> HoursOnly(edits[i])
    ensures ShownMinutes(Updates(t, edits).duration) == minutes ||
            ShownMinutes(Updates(t, edits).duration) == AfterLoss(minutes)
    decreases |edits|
  {
    hide ApplyEdit, Stored, ShownMinutes;
    ShownAsEntered(hours, minutes);
    if edits != [] {
      var e, kept := edits[0], AfterLoss(minutes);
      HoursOnlyStep(t, hours, minutes, e);
      if StorableDuration(Stored(60 * e.hours.value + kept)) {
        HoursOnlyLoseAtMostOne(ApplyEdit(t, e), e.hours.value, kept, edits[1..]);
      } else {
        HoursOnlyLoseAtMostOne(t, hours, minutes, edits[1..]);
      }
    }
  }

  /** The hours of the last edit that the column can hold, for a row whose minutes have been kept once. */
  function LastStorableHours(edits: seq<Edit>, kept: nat): Option<int> {
    if edits == [] then None
    else
      var last := edits[|edits| - 1].hours;
      if last.Some? && StorableDuration(Stored(60 * last.value + kept)) then last
      else LastStorableHours(edits[..|edits| - 1], kept)
  }

  lemma {:induction false} LastStorableFirst(e: Edit, rest: seq<Edit>, kept: nat)
    ensures LastStorableHours([e] + rest, kept)
         == if LastStorableHours(rest, kept).Some? then LastStorableHours(rest, kept) else LastStorableHours([e], kept)
  {
    if rest != [] {
      assert ([e] + rest)[..|rest|] == [e] + rest[..|rest| - 1];
      LastStorableFirst(e, rest[..|rest| - 1], kept);
    } else {
      assert [e] + rest == [e];
    }
  }

  /** The last hours that can be stored stand, with the minutes after one loss; without any the row is as it was. */
  lemma {:induction false} HoursOnlyTakeEffect(t: Times, hours: nat, minutes: nat, edits: seq<Edit>)
    requires minutes < 60 && t.duration == Stored(60 * hours + minutes)
    requires forall i :: 0 <= i < |edits| ==> HoursOnly(edits[i])
    ensures var last := LastStorableHours(edits, AfterLoss(minutes));
            Updates(t, edits).duration ==
              if last.Some? then Stored(60 * last.value + AfterLoss(minutes)) else t.duration
    decreases |edits|
  {
    hide ApplyEdit, Stored;
    if edits != [] {
      var e, kept := edits[0], AfterLoss(minutes);
      HoursOnlyStep(t, hours, minutes, e);
      assert edits == [e] + edits[1..];
      LastStorableFirst(e, edits[1..], kept);
      assert LastStorableHours([e][..0], kept) == None;
      if StorableDuration(Stored(60 * e.hours.value + kept)) {
        HoursOnlyTakeEffect(ApplyEdit(t, e), e.hours.value, kept, edits[1..]);
      } else {
        HoursOnlyTakeEffect(t, hours, minutes, edits[1..]);
      }
    }
  }

  /** The stored end time is within 12 seconds of the end the status updater uses. */
  predicate EndAccurate(t: Times) {
    t.start.Some? ==>
      t.endTime.Some? && -12 <= t.endTime.value - (t.start.value + SECONDS_PER_UNIT * t.duration) <= 12
  }

  function Updates(t: Times, edits: seq<Edit>): Times
    decreases |edits|
  {
    if edits == [] then t else Updates(ApplyEdit(t, edits[0]), edits[1..])
  }

  lemma UpdateKeepsEnd(t: Times, e: Edit)
    requires EndAccurate(t)
    ensures EndAccurate(ApplyEdit(t, e))
  {
    StoredIsNearest(EditedMinutes(t, e));
  }

  /** After a create and any updates the stored end time stays that accurate. */
  lemma {:induction false} EndStaysAccurate(start: Option<int>, hours: int, minutes: int, edits: seq<Edit>)
    requires Create(start, hours, minutes).Some?
    ensures EndAccurate(Updates(Create(start, hours, minutes).value, edits))
  {
    StoredIsNearest(60 * hours + minutes);
    UpdatesKeepEnd(Create(start, hours, minutes).value, edits);
  }

  lemma {:induction false} UpdatesKeepEnd(t: Times, edits: seq<Edit>)
    requires EndAccurate(t)
    ensures EndAccurate(Updates(t, edits))
    decreases |edits|
  {
    if edits != [] {
      UpdateKeepsEnd(t, edits[0]);
      UpdatesKeepEnd(ApplyEdit(t, edits[0]), edits[1..]);
    }
  }

  /** The bound is reached: one hour and one minute ends 12 seconds off. */
  lemma TwelveSecondsReached()
    ensures var t := Create(Some(0), 1, 1);
            t.Some? && t.value.endTime == Some(3660) && SECONDS_PER_UNIT * t.value.duration == 3672
  {
  }

  class ExamService {
    var start: Option<int>
    var duration: nat
    var endTime: Option<int>

    ghost function State(): Times
      reads this
    {
      Times(start, duration, endTime)
    }

    constructor (startTime: Option<int>, hours: int, minutes: int)
      requires Create(startTime, hours, minutes).Some?
      ensures State() == Create(startTime, hours, minutes).value
    {
      var total := 60 * hours + minutes;
      start, duration := startTime, Stored(total);
      endTime := if startTime.Some? then Some(startTime.value + 60 * total) else None;
    }

    /** A duration the column cannot hold makes the commit fail and leaves the row as it was. */
    method Edited(e: Edit)
      modifies this
      ensures State() == ApplyEdit(old(State()), e)
    {
      var newStart, newDuration, seconds := start, duration, SECONDS_PER_UNIT * duration;
      if e.hours.Some? || e.minutes.Some? {
        var hours := if e.hours.Some? then e.hours.value else duration / 100;
        var minutes := if e.minutes.Some? then e.minutes.value else 6 * (duration % 100) / 10;
        var stored := Stored(60 * hours + minutes);
        if !StorableDuration(stored) {
          return;
        }
        newDuration, seconds := stored, 60 * (60 * hours + minutes);
      }
      if e.start.Some? {
        newStart := e.start.value;
      }
      start, duration := newStart, newDuration;
      if start.Some? {
        endTime := Some(start.value + seconds);
      }
    }
  }
}
