/** The write-back at the end of `analyze_transcript`: each student who spoke
    gets the week's speaking time and instance count stored in their
    `weekly_data` row for that week, created when missing. The table is a map
    keyed by (student, week); the SQL statements themselves are not modelled. */
module WeeklyData {
  import opened Wrappers
  import opened Segmentation

  /** A `weekly_data` row. The statuses are the attendance columns the
      grade page reads; a row created by the analysis leaves them NULL. */
  datatype WeeklyRow = WeeklyRow(sync_status: Option<string>, async_status: Option<string>,
                                 speaking_time: real, speaking_instances: int)

  /** `weekly_data`, one row per (student id, week number). */
  type Table = map<(StudentId, int), WeeklyRow>

  /** `stats['time'] > 0 or stats['instances'] > 0`: only such students are
      written. */
  predicate Spoke(st: Stats) {
    st.time > 0.0 || st.instances > 0
  }

  /** The row after one write: an existing row has only its speaking columns
      replaced (the UPDATE); a missing one is created with NULL statuses (the
      INSERT). */
  function Upsert(row: Option<WeeklyRow>, st: Stats): WeeklyRow {
    match row
    case Some(r) => r.(speaking_time := st.time, speaking_instances := st.instances)
    case None => WeeklyRow(None, None, st.time, st.instances)
  }

  function Lookup(table: Table, key: (StudentId, int)): Option<WeeklyRow> {
    if key in table then Some(table[key]) else None
  }

  /** The students among `ids` whose stats are written. */
  function Speakers(stats: map<StudentId, Stats>, ids: set<StudentId>): set<StudentId>
    requires ids <= stats.Keys
  {
    set id | id in ids && Spoke(stats[id])
  }

  /** The table after the students in `ids` have been handled. */
  function SaveFor(table: Table, stats: map<StudentId, Stats>, week: int, ids: set<StudentId>): Table
    requires ids <= stats.Keys
  {
    var written := Speakers(stats, ids);
    var keys := table.Keys + set id | id in written :: (id, week);
    map k | k in keys :: if k.1 == week && k.0 in written then Upsert(Lookup(table, k), stats[k.0]) else table[k]
  }

  /** The table after the whole write-back. */
  function SaveAnalysis(table: Table, stats: map<StudentId, Stats>, week: int): Table {
    SaveFor(table, stats, week, stats.Keys)
  }

  /** A student who spoke has a row for the week holding exactly their time
      and instance count; a row that existed keeps its statuses, a new row
      has none. */
  lemma SavedSpeaker(table: Table, stats: map<StudentId, Stats>, week: int, id: StudentId)
    requires id in stats && Spoke(stats[id])
    ensures var r, key := SaveAnalysis(table, stats, week), (id, week);
      && key in r
      && r[key].speaking_time == stats[id].time
      && r[key].speaking_instances == stats[id].instances
      && (key in table ==> r[key].sync_status == table[key].sync_status && r[key].async_status == table[key].async_status)
      && (key !in table ==> r[key].sync_status.None? && r[key].async_status.None?)
  {
    assert id in Speakers(stats, stats.Keys);
  }

  /** Every other row is left as it was, and no other row is created: a
      silent student's row for the week, and every row of another week,
      are unchanged. */
  lemma SavedOthers(table: Table, stats: map<StudentId, Stats>, week: int, key: (StudentId, int))
    requires !(key.1 == week && key.0 in stats && Spoke(stats[key.0]))
    ensures var r := SaveAnalysis(table, stats, week);
      && (key in r <==> key in table)
      && (key in table ==> r[key] == table[key])
  {
  }

  /** Writing the same analysis twice is writing it once. */
  lemma SaveIdempotent(table: Table, stats: map<StudentId, Stats>, week: int)
    ensures SaveAnalysis(SaveAnalysis(table, stats, week), stats, week) == SaveAnalysis(table, stats, week)
  {
    var once := SaveAnalysis(table, stats, week);
    var twice := SaveAnalysis(once, stats, week);
    forall key | key in once || key in twice
      ensures key in once && key in twice && twice[key] == once[key]
    {
      if key.1 == week && key.0 in stats && Spoke(stats[key.0]) {
        SavedSpeaker(table, stats, week, key.0);
        SavedSpeaker(once, stats, week, key.0);
      } else {
        SavedOthers(table, stats, week, key);
        SavedOthers(once, stats, week, key);
      }
    }
  }

  /** Handling one more student is one more write. */
  lemma SaveForStep(table: Table, stats: map<StudentId, Stats>, week: int, done: set<StudentId>, id: StudentId)
    requires done <= stats.Keys && id in stats && id !in done
    ensures var before, key := SaveFor(table, stats, week, done), (id, week);
      SaveFor(table, stats, week, done + {id})
        == if Spoke(stats[id]) then before[key := Upsert(Lookup(before, key), stats[id])] else before
  {
    var before, key := SaveFor(table, stats, week, done), (id, week);
    var after := SaveFor(table, stats, week, done + {id});
    assert Speakers(stats, done + {id}) == Speakers(stats, done) + (if Spoke(stats[id]) then {id} else {});
    assert Lookup(before, key) == Lookup(table, key);
    var expected := if Spoke(stats[id]) then before[key := Upsert(Lookup(before, key), stats[id])] else before;
    assert after.Keys == expected.Keys;
    forall k | k in after
      ensures after[k] == expected[k]
    {
    }
  }

  /** The loop of `analyze_transcript` that writes `student_stats` back,
      visiting the students in `order`, the dictionary's iteration order
      (each key once). */
  method SaveStudentStats(table: Table, student_stats: map<StudentId, Stats>, order: seq<StudentId>, week_num: int)
    returns (weekly_data: Table)
    requires forall id :: id in student_stats <==> id in order
    requires forall i, j :: 0 <= i < j < |order| ==> order[i] != order[j]
    ensures weekly_data == SaveAnalysis(table, student_stats, week_num)
  {
    weekly_data := table;
    ghost var done: set<StudentId> := {};
    for n := 0 to |order|
      invariant done == set i | 0 <= i < n :: order[i]
      invariant done <= student_stats.Keys
      invariant weekly_data == SaveFor(table, student_stats, week_num, done)
    {
      var student_id := order[n];
      var stats := student_stats[student_id];
      assert student_id !in done;
      SaveForStep(table, student_stats, week_num, done, student_id);
      if stats.time > 0.0 || stats.instances > 0 {
        var key := (student_id, week_num);
        if key in weekly_data {
          var row := weekly_data[key];
          weekly_data := weekly_data[key := row.(speaking_time := stats.time, speaking_instances := stats.instances)];
        } else {
          weekly_data := weekly_data[key := WeeklyRow(None, None, stats.time, stats.instances)];
        }
      }
      done := done + {student_id};
    }
    assert done == student_stats.Keys by {
      forall id | id in student_stats ensures id in done {
        var i :| 0 <= i < |order| && order[i] == id;
        assert order[i] in done;
      }
    }
  }

  /** A student of the roster to whom no cue of the transcript is attributed
      keeps the all-zero stats, so their rows are not touched. */
  lemma UnmentionedNotWritten(table: Table, students: seq<Student>, lines: seq<string>, week: int, id: StudentId)
    requires id in StudentIds(students)
    requires AttributedCount(PseudonymMap(students), ExtractCues(lines), id) == 0
    ensures var r := SaveAnalysis(table, Analysis(students, lines).student_stats, week);
      && ((id, week) in r <==> (id, week) in table)
      && ((id, week) in table ==> r[(id, week)] == table[(id, week)])
  {
    var init := Tally(InitialStats(students), []);
    SegmentStudent(PseudonymMap(students), init, ExtractCues(lines), id);
    SavedOthers(table, Analysis(students, lines).student_stats, week, (id, week));
  }
}
