/** The grade computation of `grades_page`: per-student counts and sums over
    the student's weekly rows, a participation bonus capped by the spread,
    penalties beyond free allowances, the manual adjustment, a clamp to
    [0, 100], and class averages when the roster is not empty. */
module Grades {
  import opened Wrappers
  import opened TimeCodec
  import opened Segmentation
  import opened WeeklyData

  /** The settings columns, in the order the settings form lists them. */
  datatype Settings = Settings(
    base_score: real, spread_points: real, instance_weight: real, time_weight: real,
    sync_penalty: real, free_sync_absences: real, async_penalty: real, free_async_misses: real,
    max_instances_per_week: real, free_video_off: real, video_off_penalty: real)

  /** A `students` row as the grade page reads it. */
  datatype Enrolled = Enrolled(id: StudentId, name: string, manual_adjustment: real)

  /** A `weekly_data` row together with the student it belongs to. */
  datatype WeeklyRecord = WeeklyRecord(student_id: StudentId, row: WeeklyRow)

  /** One entry of `final_results`; `final_grade` is absent until the
      second pass fills it in. */
  datatype StudentResult = StudentResult(
    student_id: StudentId, name: string, absences: nat, video_off: nat, async_misses: nat,
    total_instances: int, capped_instances: real, total_time: real, raw_points: real,
    manual_adjustment: real, final_grade: Option<real>)

  /** The class averages, before rounding. */
  datatype Averages = Averages(absences: real, video_off: real, async_misses: real,
                               total_time: string, capped_instances: real, final_grade: real)

  // --- Per-student sums ------------------------------------------------------

  /** `[row for row in all_weekly_data if row['student_id'] == student_id]`. */
  function RowsOf(all: seq<WeeklyRecord>, id: StudentId): (r: seq<WeeklyRow>)
    ensures |r| <= |all|
  {
    if all == [] then []
    else (if all[0].student_id == id then [all[0].row] else []) + RowsOf(all[1..], id)
  }

  /** The student's rows are exactly the rows recorded for that student. */
  lemma {:induction false} RowsOfSpec(all: seq<WeeklyRecord>, id: StudentId, row: WeeklyRow)
    ensures row in RowsOf(all, id) <==> WeeklyRecord(id, row) in all
  {
    if all != [] {
      RowsOfSpec(all[1..], id, row);
      assert all == [all[0]] + all[1..];
    }
  }

  /** Rows whose `sync_status` is `status`. */
  function CountSync(rows: seq<WeeklyRow>, status: string): nat {
    if rows == [] then 0
    else (if rows[0].sync_status == Some(status) then 1 else 0) + CountSync(rows[1..], status)
  }

  /** Rows whose `async_status` is `status`. */
  function CountAsync(rows: seq<WeeklyRow>, status: string): nat {
    if rows == [] then 0
    else (if rows[0].async_status == Some(status) then 1 else 0) + CountAsync(rows[1..], status)
  }

  function TotalInstances(rows: seq<WeeklyRow>): int {
    if rows == [] then 0 else rows[0].speaking_instances + TotalInstances(rows[1..])
  }

  function TotalTime(rows: seq<WeeklyRow>): real {
    if rows == [] then 0.0 else rows[0].speaking_time + TotalTime(rows[1..])
  }

  /** Python's `min(a, b)`. */
  function Min(a: real, b: real): real {
    if b < a then b else a
  }

  /** Python's `max(a, b)`. */
  function Max(a: real, b: real): real {
    if b > a then b else a
  }

  /** The sum over the weeks of the week's instances, capped at `cap`. */
  function CappedInstances(rows: seq<WeeklyRow>, cap: real): real {
    if rows == [] then 0.0
    else Min(rows[0].speaking_instances as real, cap) + CappedInstances(rows[1..], cap)
  }

  /** The first pass over the roster: one result per student, grade not yet
      set. */
  function Tallied(settings: Settings, student: Enrolled, all: seq<WeeklyRecord>): StudentResult {
    var rows := RowsOf(all, student.id);
    var capped := CappedInstances(rows, settings.max_instances_per_week);
    var time := TotalTime(rows);
    StudentResult(student.id, student.name, CountSync(rows, "Absent"), CountSync(rows, "Video Off"),
                  CountAsync(rows, "Missed"), TotalInstances(rows), capped, time,
                  capped * settings.instance_weight + (time / 60.0) * settings.time_weight,
                  student.manual_adjustment, None)
  }

  // --- The grade ---------------------------------------------------------------

  /** `max(0, count - free)`: the occurrences beyond the free allowance. */
  function PenaltyCount(count: nat, free: real): real {
    Max(0.0, count as real - free)
  }

  /** The grade before the clamp. */
  function UnclampedGrade(settings: Settings, res: StudentResult): real {
    settings.base_score
    + Min(res.raw_points, settings.spread_points)
    - PenaltyCount(res.absences, settings.free_sync_absences) * settings.sync_penalty
    - PenaltyCount(res.async_misses, settings.free_async_misses) * settings.async_penalty
    - PenaltyCount(res.video_off, settings.free_video_off) * settings.video_off_penalty
    + res.manual_adjustment
  }

  /** `max(0, min(100, grade))`: always in [0, 100], and the grade itself
      when it already lies there. */
  function FinalGrade(settings: Settings, res: StudentResult): (g: real)
    ensures 0.0 <= g <= 100.0
    ensures 0.0 <= UnclampedGrade(settings, res) <= 100.0 ==> g == UnclampedGrade(settings, res)
    ensures UnclampedGrade(settings, res) < 0.0 ==> g == 0.0
    ensures UnclampedGrade(settings, res) > 100.0 ==> g == 100.0
  {
    Max(0.0, Min(100.0, UnclampedGrade(settings, res)))
  }

  /** The result of a student after both passes. */
  function Graded(settings: Settings, student: Enrolled, all: seq<WeeklyRecord>): StudentResult {
    var res := Tallied(settings, student, all);
    res.(final_grade := Some(FinalGrade(settings, res)))
  }

  // --- Averages ------------------------------------------------------------------

  function Sum(xs: seq<real>): real {
    if xs == [] then 0.0 else xs[0] + Sum(xs[1..])
  }

  function GradeOf(res: StudentResult): real {
    match res.final_grade
    case Some(g) => g
    case None => 0.0
  }

  /** The averages of the results: none for an empty roster. */
  function ClassAverages(rs: seq<StudentResult>): Option<Averages> {
    if rs == [] then None
    else
      var n := |rs| as real;
      Some(Averages(
        Sum(seq(|rs|, i requires 0 <= i < |rs| => rs[i].absences as real)) / n,
        Sum(seq(|rs|, i requires 0 <= i < |rs| => rs[i].video_off as real)) / n,
        Sum(seq(|rs|, i requires 0 <= i < |rs| => rs[i].async_misses as real)) / n,
        FormatTime(Some(Sum(seq(|rs|, i requires 0 <= i < |rs| => rs[i].total_time)) / n)),
        Sum(seq(|rs|, i requires 0 <= i < |rs| => rs[i].capped_instances)) / n,
        Sum(seq(|rs|, i requires 0 <= i < |rs| => GradeOf(rs[i]))) / n))
  }

  // --- The page ------------------------------------------------------------------

  /** The first loop of `grades_page`: one result per student, in roster
      order, with the sums over the student's weekly rows. */
  method TallyResults(settings: Settings, students: seq<Enrolled>, all_weekly_data: seq<WeeklyRecord>)
    returns (final_results: seq<StudentResult>)
    ensures |final_results| == |students|
    ensures forall i :: 0 <= i < |students| ==> final_results[i] == Tallied(settings, students[i], all_weekly_data)
  {
    final_results := [];
    for k := 0 to |students|
      invariant |final_results| == k
      invariant forall i :: 0 <= i < k ==> final_results[i] == Tallied(settings, students[i], all_weekly_data)
    {
      var student := students[k];
      var student_weekly_data := RowsOf(all_weekly_data, student.id);
      var total_absences := CountSync(student_weekly_data, "Absent");
      var total_video_off := CountSync(student_weekly_data, "Video Off");
      var total_async_misses := CountAsync(student_weekly_data, "Missed");
      var total_instances := TotalInstances(student_weekly_data);
      var total_time := TotalTime(student_weekly_data);
      var capped_instances := CappedInstances(student_weekly_data, settings.max_instances_per_week);
      var raw_points := (capped_instances * settings.instance_weight) + ((total_time / 60.0) * settings.time_weight);
      final_results := final_results + [StudentResult(student.id, student.name, total_absences, total_video_off,
        total_async_misses, total_instances, capped_instances, total_time, raw_points, student.manual_adjustment, None)];
    }
  }

  /** The second loop of `grades_page`: each result gets its clamped grade,
      in place. */
  method AssignGrades(settings: Settings, results: seq<StudentResult>) returns (final_results: seq<StudentResult>)
    ensures |final_results| == |results|
    ensures forall i :: 0 <= i < |results| ==> final_results[i] == results[i].(final_grade := Some(FinalGrade(settings, results[i])))
  {
    final_results := results;
    for k := 0 to |final_results|
      invariant |final_results| == |results|
      invariant forall i :: 0 <= i < k ==> final_results[i] == results[i].(final_grade := Some(FinalGrade(settings, results[i])))
      invariant forall i :: k <= i < |results| ==> final_results[i] == results[i]
    {
      var res := final_results[k];
      var grade := settings.base_score;
      var participation_points := res.raw_points;
      var capped_bonus := Min(participation_points, settings.spread_points);
      grade := grade + capped_bonus;
      var sync_penalty_count := Max(0.0, res.absences as real - settings.free_sync_absences);
      grade := grade - sync_penalty_count * settings.sync_penalty;
      var async_penalty_count := Max(0.0, res.async_misses as real - settings.free_async_misses);
      grade := grade - async_penalty_count * settings.async_penalty;
      var video_off_penalty_count := Max(0.0, res.video_off as real - settings.free_video_off);
      grade := grade - video_off_penalty_count * settings.video_off_penalty;
      grade := grade + res.manual_adjustment;
      assert grade == UnclampedGrade(settings, res);
      final_results := final_results[k := res.(final_grade := Some(Max(0.0, Min(100.0, grade))))];
    }
  }

  /** The grade block of `grades_page`: the first loop tallies every
      student, the second sets each result's grade in place, and the
      averages follow when there is at least one result. */
  method GradesPage(settings: Settings, students: seq<Enrolled>, all_weekly_data: seq<WeeklyRecord>)
    returns (final_results: seq<StudentResult>, averages: Option<Averages>)
    ensures |final_results| == |students|
    ensures forall i :: 0 <= i < |students| ==> final_results[i] == Graded(settings, students[i], all_weekly_data)
    ensures averages == ClassAverages(final_results)
  {
    final_results := [];
    if students != [] {
      final_results := TallyResults(settings, students, all_weekly_data);
      final_results := AssignGrades(settings, final_results);
    }
    if final_results != [] {
      var num_students := |final_results| as real;
      var avg_time_seconds := Sum(seq(|final_results|, i requires 0 <= i < |final_results| => final_results[i].total_time)) / num_students;
      averages := Some(Averages(
        Sum(seq(|final_results|, i requires 0 <= i < |final_results| => final_results[i].absences as real)) / num_students,
        Sum(seq(|final_results|, i requires 0 <= i < |final_results| => final_results[i].video_off as real)) / num_students,
        Sum(seq(|final_results|, i requires 0 <= i < |final_results| => final_results[i].async_misses as real)) / num_students,
        FormatTime(Some(avg_time_seconds)),
        Sum(seq(|final_results|, i requires 0 <= i < |final_results| => final_results[i].capped_instances)) / num_students,
        Sum(seq(|final_results|, i requires 0 <= i < |final_results| => GradeOf(final_results[i]))) / num_students));
    } else {
      averages := None;
    }
  }

  // --- Properties ----------------------------------------------------------------

  /** Capping each week never adds instances: the capped sum is at most the
      total, and at most the cap times the number of weeks. */
  lemma {:induction false} CappedAtMostTotal(rows: seq<WeeklyRow>, cap: real)
    ensures CappedInstances(rows, cap) <= TotalInstances(rows) as real
    ensures CappedInstances(rows, cap) <= cap * |rows| as real
  {
    if rows != [] {
      CappedAtMostTotal(rows[1..], cap);
    }
  }

  /** A cap at least every week's count leaves the total unchanged. */
  lemma {:induction false} CapNotReached(rows: seq<WeeklyRow>, cap: real)
    requires forall i :: 0 <= i < |rows| ==> rows[i].speaking_instances as real <= cap
    ensures CappedInstances(rows, cap) == TotalInstances(rows) as real
  {
    if rows != [] {
      CapNotReached(rows[1..], cap);
    }
  }

  /** A row has one `sync_status`, so absences and video-off weeks together
      are at most the student's rows. */
  lemma {:induction false} SyncCountsBound(rows: seq<WeeklyRow>)
    ensures CountSync(rows, "Absent") + CountSync(rows, "Video Off") <= |rows|
  {
    if rows != [] {
      SyncCountsBound(rows[1..]);
    }
  }

  /** Occurrences up to the allowance cost nothing; beyond it, each one
      costs one penalty. */
  lemma PenaltyAllowance(count: nat, free: real)
    ensures PenaltyCount(count, free) == 0.0 <==> count as real <= free
    ensures count as real > free ==> PenaltyCount(count + 1, free) == PenaltyCount(count, free) + 1.0
  {
  }

  /** Once the raw points reach the spread, more participation does not
      change the grade. */
  lemma BonusSaturates(settings: Settings, res: StudentResult, more: real)
    requires res.raw_points >= settings.spread_points && more >= res.raw_points
    ensures FinalGrade(settings, res.(raw_points := more)) == FinalGrade(settings, res)
    ensures UnclampedGrade(settings, res) == settings.base_score + settings.spread_points
      - PenaltyCount(res.absences, settings.free_sync_absences) * settings.sync_penalty
      - PenaltyCount(res.async_misses, settings.free_async_misses) * settings.async_penalty
      - PenaltyCount(res.video_off, settings.free_video_off) * settings.video_off_penalty
      + res.manual_adjustment
  {
    var res' := res.(raw_points := more);
    assert Min(more, settings.spread_points) == settings.spread_points;
    assert Min(res.raw_points, settings.spread_points) == settings.spread_points;
    assert UnclampedGrade(settings, res') == UnclampedGrade(settings, res);
  }

  /** With a non-negative penalty, one more absence never raises the grade. */
  lemma AbsenceNeverHelps(settings: Settings, res: StudentResult)
    requires settings.sync_penalty >= 0.0
    ensures FinalGrade(settings, res.(absences := res.absences + 1)) <= FinalGrade(settings, res)
  {
    var more := res.(absences := res.absences + 1);
    assert PenaltyCount(more.absences, settings.free_sync_absences) >= PenaltyCount(res.absences, settings.free_sync_absences);
    assert UnclampedGrade(settings, more) <= UnclampedGrade(settings, res);
  }

  /** The worked example: base 70, spread 20, five capped instances at 2
      points, 600 seconds at 1 point per minute, two absences with one free
      at 5 points each: 85. */
  lemma WorkedExample()
    ensures var settings := Settings(70.0, 20.0, 2.0, 1.0, 5.0, 1.0, 0.0, 0.0, 10.0, 0.0, 0.0);
      var all := [WeeklyRecord(7, WeeklyRow(Some("Absent"), None, 600.0, 5)),
                  WeeklyRecord(7, WeeklyRow(Some("Absent"), None, 0.0, 0)),
                  WeeklyRecord(8, WeeklyRow(Some("Present"), None, 30.0, 1))];
      Graded(settings, Enrolled(7, "Student-1", 0.0), all).final_grade == Some(85.0)
  {
    var all := [WeeklyRecord(7, WeeklyRow(Some("Absent"), None, 600.0, 5)),
                WeeklyRecord(7, WeeklyRow(Some("Absent"), None, 0.0, 0)),
                WeeklyRecord(8, WeeklyRow(Some("Present"), None, 30.0, 1))];
    var rows := RowsOf(all, 7);
    assert all[1..][1..][1..] == [];
    assert rows == [all[0].row, all[1].row];
    var tail := rows[1..];
    assert tail == [all[1].row] && tail[1..] == [];
    assert CappedInstances(tail, 10.0) == 0.0;
    assert TotalTime(tail) == 0.0;
    assert CountSync(tail, "Absent") == 1;
    assert CountSync(tail, "Video Off") == 0;
    assert CountAsync(tail, "Missed") == 0;
    assert CappedInstances(rows, 10.0) == 5.0;
    assert TotalTime(rows) == 600.0;
    assert CountSync(rows, "Absent") == 2;
    assert CountSync(rows, "Video Off") == 0;
    assert CountAsync(rows, "Missed") == 0;
  }

  /** An empty roster has no averages, any other has them. */
  lemma AveragesPresent(rs: seq<StudentResult>)
    ensures ClassAverages(rs).None? <==> rs == []
  {
  }

  /** A sum of values within [lo, hi] lies within [n * lo, n * hi]. */
  lemma {:induction false} SumBounds(xs: seq<real>, lo: real, hi: real)
    requires forall i :: 0 <= i < |xs| ==> lo <= xs[i] <= hi
    ensures lo * |xs| as real <= Sum(xs) <= hi * |xs| as real
  {
    if xs != [] {
      SumBounds(xs[1..], lo, hi);
    }
  }

  /** The class's average grade lies in [0, 100]. */
  lemma AverageGradeInRange(settings: Settings, students: seq<Enrolled>, all: seq<WeeklyRecord>, rs: seq<StudentResult>)
    requires |rs| == |students| && forall i :: 0 <= i < |students| ==> rs[i] == Graded(settings, students[i], all)
    ensures ClassAverages(rs).Some? ==> 0.0 <= ClassAverages(rs).value.final_grade <= 100.0
  {
    if rs != [] {
      var grades := seq(|rs|, i requires 0 <= i < |rs| => GradeOf(rs[i]));
      forall i | 0 <= i < |grades| ensures 0.0 <= grades[i] <= 100.0 {
        assert rs[i] == Graded(settings, students[i], all);
      }
      SumBounds(grades, 0.0, 100.0);
      var n := |rs| as real;
      assert 0.0 <= Sum(grades) / n <= 100.0;
    }
  }
}
