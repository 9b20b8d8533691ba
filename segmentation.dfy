/** The transcript analysis of `analyze_transcript`: caption cues are read
    from an anonymized transcript, attributed to roster pseudonyms, and
    folded into per-student speaking time and a count of speaking
    instances (turns). */
module Segmentation {
  import opened Wrappers
  import opened Text
  import opened TimeCodec

  type StudentId = int

  /** A row of the class's `students` table, as far as the analysis reads it. */
  datatype Student = Student(id: StudentId, name: string)

  /** One entry of `student_stats`: accumulated seconds, instance count, and
      the start of the student's latest cue, where 0 stands for "has not
      spoken yet". */
  datatype Stats = Stats(time: real, instances: int, last_speak_time: real)

  /** A caption cue: start and end in seconds and the label of the speaker
      line that follows it. */
  datatype Cue = Cue(start: real, end: real, speaker: string)

  /** The state the analysis loop updates: `student_stats` and the
      append-only `speaking_order`. */
  datatype Tally = Tally(student_stats: map<StudentId, Stats>, speaking_order: seq<string>)

  /** The gap, in seconds, after which a student's cue always opens a new
      instance. */
  const MaxGap: real := 45.0

  // --- Roster --------------------------------------------------------------

  /** `{s['name']: s['id'] for s in students}`: the names of the students,
      each mapped to the id of a student bearing it (the last one, as
      `PseudonymMapLast` shows). */
  function PseudonymMap(students: seq<Student>): (m: map<string, StudentId>)
    ensures forall i :: 0 <= i < |students| ==> students[i].name in m
    decreases |students|
  {
    if students == [] then map[]
    else
      var front := students[..|students| - 1];
      var last := students[|students| - 1];
      assert forall i :: 0 <= i < |front| ==> front[i] == students[i];
      PseudonymMap(front)[last.name := last.id]
  }

  /** The names that resolve are exactly the students' names. */
  lemma {:induction false} PseudonymMapKeys(students: seq<Student>)
    ensures PseudonymMap(students).Keys == set i | 0 <= i < |students| :: students[i].name
    decreases |students|
  {
    if students != [] {
      var front := students[..|students| - 1];
      PseudonymMapKeys(front);
      assert forall i :: 0 <= i < |front| ==> front[i] == students[i];
      var names := set i | 0 <= i < |students| :: students[i].name;
      var frontNames := set i | 0 <= i < |front| :: front[i].name;
      assert names == frontNames + {students[|students| - 1].name} by {
        forall x | x in names ensures x in frontNames + {students[|students| - 1].name} {
          var i :| 0 <= i < |students| && students[i].name == x;
          if i < |front| {
            assert x in frontNames;
          }
        }
      }
    }
  }

  /** A repeated name resolves to the id of the last student bearing it. */
  lemma {:induction false} PseudonymMapLast(students: seq<Student>, i: nat)
    requires i < |students|
    requires forall j :: i < j < |students| ==> students[j].name != students[i].name
    ensures PseudonymMap(students)[students[i].name] == students[i].id
    decreases |students|
  {
    var front := students[..|students| - 1];
    if i < |front| {
      assert front[i] == students[i];
      assert forall j :: i < j < |front| ==> front[j] == students[j];
      PseudonymMapLast(front, i);
    }
  }

  /** The ids of the class's students. */
  function StudentIds(students: seq<Student>): set<StudentId> {
    set i | 0 <= i < |students| :: students[i].id
  }

  /** `{s['id']: {'time': 0, 'instances': 0, 'last_speak_time': 0} ...}`. */
  function InitialStats(students: seq<Student>): (m: map<StudentId, Stats>)
    ensures m.Keys == StudentIds(students)
    ensures forall id :: id in m ==> m[id] == Stats(0.0, 0, 0.0)
  {
    map id | id in StudentIds(students) :: Stats(0.0, 0, 0.0)
  }

  /** Every student a pseudonym resolves to has an entry in the stats, so the
      `KeyError` path of the loop is never taken. */
  lemma {:induction false} PseudonymsHaveStats(students: seq<Student>)
    ensures forall name :: name in PseudonymMap(students) ==>
      PseudonymMap(students)[name] in InitialStats(students)
    decreases |students|
  {
    if students != [] {
      var front := students[..|students| - 1];
      var last := students[|students| - 1];
      PseudonymsHaveStats(front);
      assert forall i :: 0 <= i < |front| ==> front[i] == students[i];
      assert StudentIds(front) <= StudentIds(students) by {
        forall x | x in StudentIds(front) ensures x in StudentIds(students) {
          var i :| 0 <= i < |front| && front[i].id == x;
          assert students[i].id == x;
        }
      }
      assert last.id in StudentIds(students);
    }
  }

  // --- Cue extraction ------------------------------------------------------

  /** Line `i` opens a cue: it contains `-->`, there is a following line, and
      that line contains a colon. */
  predicate IsCue(lines: seq<string>, i: nat)
    requires i < |lines|
  {
    Contains(lines[i], "-->") && i + 1 < |lines| && Contains(lines[i + 1], ":")
  }

  /** The speaker label of a speaker line: the trimmed text before its first
      colon. */
  function SpeakerLabel(line: string): string {
    Trim(SplitOn(line, ":")[0])
  }

  /** The cue opened by line `i`: times from the trimmed text before the first
      `-->` and between the first and the second, speaker from the next line. */
  function CueAt(lines: seq<string>, i: nat): Cue
    requires i < |lines| && IsCue(lines, i)
  {
    SplitOnSeveral(lines[i], "-->");
    var times := SplitOn(lines[i], "-->");
    Cue(ParseTimeToSeconds(Trim(times[0])), ParseTimeToSeconds(Trim(times[1])), SpeakerLabel(lines[i + 1]))
  }

  /** The cues opened by the first `n` lines, in order. */
  function CuesUpTo(lines: seq<string>, n: nat): seq<Cue>
    requires n <= |lines|
  {
    if n == 0 then []
    else CuesUpTo(lines, n - 1) + (if IsCue(lines, n - 1) then [CueAt(lines, n - 1)] else [])
  }

  /** All cues of a transcript, in order. */
  function ExtractCues(lines: seq<string>): seq<Cue> {
    CuesUpTo(lines, |lines|)
  }

  /** Every cue line among the first `n` yields its cue. */
  lemma {:induction false} CueLineExtracted(lines: seq<string>, n: nat, i: nat)
    requires i < n <= |lines| && IsCue(lines, i)
    ensures CueAt(lines, i) in CuesUpTo(lines, n)
  {
    if i < n - 1 {
      CueLineExtracted(lines, n - 1, i);
    }
  }

  /** Every extracted cue comes from a cue line among the first `n`. */
  lemma {:induction false} ExtractedCueLine(lines: seq<string>, n: nat, c: Cue) returns (i: nat)
    requires n <= |lines| && c in CuesUpTo(lines, n)
    ensures i < n && IsCue(lines, i) && CueAt(lines, i) == c
  {
    var front := CuesUpTo(lines, n - 1);
    if c in front {
      i := ExtractedCueLine(lines, n - 1, c);
    } else {
      i := n - 1;
    }
  }

  /** A transcript without any `-->` has no cues. */
  lemma {:induction false} NoArrowNoCues(lines: seq<string>, n: nat)
    requires n <= |lines|
    requires forall i :: 0 <= i < |lines| ==> !Contains(lines[i], "-->")
    ensures CuesUpTo(lines, n) == []
  {
    if n > 0 {
      NoArrowNoCues(lines, n - 1);
    }
  }

  /** The speaker of a cue is the trimmed text before the first colon of the
      line after the `-->` line. */
  lemma CueSpeaker(lines: seq<string>, i: nat)
    requires i < |lines| && IsCue(lines, i)
    ensures var next := lines[i + 1];
      exists k :: 0 <= k < |next| && next[k] == ':' && ':' !in next[..k]
        && CueAt(lines, i).speaker == Trim(next[..k])
  {
    var next := lines[i + 1];
    SplitOnFirst(next, ":");
    var p := SplitOn(next, ":")[0];
    var k := |p|;
    ContainsChar(p, ':');
    assert next[..k] == p;
    assert next[k..k + 1] == ":";
    assert next[k] == ':';
  }

  /** The start and end of a cue are read from the trimmed text before the
      first `-->` and the trimmed text after it up to the next `-->`. */
  lemma CueTimes(lines: seq<string>, i: nat)
    requires i < |lines| && IsCue(lines, i)
    ensures var line := lines[i];
      exists k :: 0 <= k && k + 3 <= |line| && line[k..k + 3] == "-->" && !Contains(line[..k], "-->")
        && CueAt(lines, i).start == ParseTimeToSeconds(Trim(line[..k]))
        && CueAt(lines, i).end == ParseTimeToSeconds(Trim(SplitOn(line[k + 3..], "-->")[0]))
  {
    var line := lines[i];
    SplitOnFirst(line, "-->");
    SplitOnRest(line, "-->");
    var k := |SplitOn(line, "-->")[0]|;
    assert line[..k] == SplitOn(line, "-->")[0];
  }

  // --- Turn segmentation ---------------------------------------------------

  /** `s[::-1]`. */
  function Reversed(s: seq<string>): (r: seq<string>)
    ensures |r| == |s|
    ensures forall i :: 0 <= i < |s| ==> r[i] == s[|s| - 1 - i]
  {
    seq(|s|, i requires 0 <= i < |s| => s[|s| - 1 - i])
  }

  /** `s.index(x, from)`: the first position at or after `from` holding `x`;
      `None` for the `ValueError` raised when there is none. */
  function IndexFrom(s: seq<string>, x: string, from: nat): (r: Option<nat>)
    ensures r.Some? ==> (from <= r.value < |s| && s[r.value] == x
      && forall k :: from <= k < r.value ==> s[k] != x)
    ensures r.None? ==> forall k :: from <= k < |s| ==> s[k] != x
    decreases |s| - from
  {
    if from >= |s| then None
    else if s[from] == x then Some(from)
    else IndexFrom(s, x, from + 1)
  }

  /** `any(s in pseudonym_map for s in labels)`. */
  predicate AnyOnRoster(labels: seq<string>, roster: map<string, StudentId>) {
    exists k :: 0 <= k < |labels| && labels[k] in roster
  }

  /** The instance decision for a cue of `name` starting at `start`, whose
      label has just been appended to `order`: a first turn (the 0
      sentinel), a gap of more than 45 seconds, no earlier occurrence, or a
      roster label strictly between the previous occurrence and this one. */
  function IsNewInstance(roster: map<string, StudentId>, order: seq<string>, name: string, last: real, start: real): bool {
    if last == 0.0 then true
    else if start - last > MaxGap then true
    else
      match IndexFrom(Reversed(order), name, 1)
      case None => true
      case Some(j) =>
        var lastIdx := |order| - 1 - j;
        AnyOnRoster(order[lastIdx + 1..|order| - 1], roster)
  }

  /** `j` is the previous occurrence of `name` before the last entry. */
  predicate IsPrevious(order: seq<string>, name: string, j: int) {
    0 <= j < |order| - 1 && order[j] == name
    && forall k :: j < k < |order| - 1 ==> order[k] != name
  }

  /** Some roster label lies strictly between position `j` and the last entry. */
  predicate RosterBetween(order: seq<string>, j: int, roster: map<string, StudentId>) {
    exists k :: j < k < |order| - 1 && 0 <= k && order[k] in roster
  }

  /** The instance rule in terms of the speaking order itself: the sentinel and
      the gap force a new instance; otherwise a new instance starts exactly
      when a roster label was spoken between the previous occurrence and this
      one, or when there is no previous occurrence. Labels off the roster
      (PROFESSOR, ignored or unknown ones) never split a turn. */
  lemma NewInstanceRule(roster: map<string, StudentId>, order: seq<string>, name: string, last: real, start: real, j: int)
    requires |order| >= 1 && order[|order| - 1] == name
    ensures last == 0.0 ==> IsNewInstance(roster, order, name, last, start)
    ensures last != 0.0 && start - last > MaxGap ==> IsNewInstance(roster, order, name, last, start)
    ensures last != 0.0 && start - last <= MaxGap && IsPrevious(order, name, j) ==>
      (IsNewInstance(roster, order, name, last, start) <==> RosterBetween(order, j, roster))
    ensures last != 0.0 && start - last <= MaxGap && (forall k :: 0 <= k < |order| - 1 ==> order[k] != name) ==>
      IsNewInstance(roster, order, name, last, start)
  {
    var rev := Reversed(order);
    var n := |order|;
    if last != 0.0 && start - last <= MaxGap {
      match IndexFrom(rev, name, 1)
      case None =>
        forall k | 0 <= k < n - 1 ensures order[k] != name {
          assert rev[n - 1 - k] == order[k];
        }
      case Some(r) =>
        var p := n - 1 - r;
        assert order[p] == name;
        assert forall k :: p < k < n - 1 ==> order[k] != name by {
          forall k | p < k < n - 1 ensures order[k] != name {
            assert rev[n - 1 - k] == order[k];
          }
        }
        if IsPrevious(order, name, j) {
          assert j == p;
          var between := order[p + 1..n - 1];
          if RosterBetween(order, j, roster) {
            var k :| j < k < n - 1 && 0 <= k && order[k] in roster;
            assert between[k - p - 1] == order[k];
          }
          if AnyOnRoster(between, roster) {
            var k :| 0 <= k < |between| && between[k] in roster;
            assert order[p + 1 + k] == between[k];
          }
        }
        assert order[p] == name && p < n - 1;
    }
  }

  /** One cue of the analysis loop: the label is appended to the speaking
      order; a roster label then adds the cue's duration (end minus start,
      not clamped) to that student's time, counts a new instance when the
      rule says so, and records the cue's start. A roster name whose id has
      no stats entry would raise `KeyError` after the append, which the loop
      catches: the state then keeps only the append. */
  function Step(roster: map<string, StudentId>, t: Tally, c: Cue): Tally {
    var order := t.speaking_order + [c.speaker];
    if c.speaker in roster && roster[c.speaker] in t.student_stats then
      var id := roster[c.speaker];
      var st := t.student_stats[id];
      var isNew := IsNewInstance(roster, order, c.speaker, st.last_speak_time, c.start);
      Tally(t.student_stats[id := Stats(st.time + (c.end - c.start), if isNew then st.instances + 1 else st.instances, c.start)], order)
    else
      Tally(t.student_stats, order)
  }

  /** The state after a sequence of cues. */
  function Segment(roster: map<string, StudentId>, init: Tally, cues: seq<Cue>): Tally
    decreases |cues|
  {
    if cues == [] then init
    else Step(roster, Segment(roster, init, cues[..|cues| - 1]), cues[|cues| - 1])
  }

  /** The analysis of a whole transcript, from the initial stats. */
  function Analysis(students: seq<Student>, lines: seq<string>): Tally {
    Segment(PseudonymMap(students), Tally(InitialStats(students), []), ExtractCues(lines))
  }

  /** One more cue is one more step. */
  lemma SegmentSnoc(roster: map<string, StudentId>, init: Tally, cues: seq<Cue>, c: Cue)
    ensures Segment(roster, init, cues + [c]) == Step(roster, Segment(roster, init, cues), c)
  {
    assert (cues + [c])[..|cues|] == cues;
  }

  // --- Properties of the segmentation ----------------------------------------

  /** A cue is attributed to student `id` when its label is a roster name of
      that student. */
  predicate Attributed(roster: map<string, StudentId>, c: Cue, id: StudentId) {
    c.speaker in roster && roster[c.speaker] == id
  }

  /** Total duration (end minus start) of the cues attributed to `id`. */
  function AttributedTime(roster: map<string, StudentId>, cues: seq<Cue>, id: StudentId): real
    decreases |cues|
  {
    if cues == [] then 0.0
    else
      var c := cues[|cues| - 1];
      AttributedTime(roster, cues[..|cues| - 1], id) + (if Attributed(roster, c, id) then c.end - c.start else 0.0)
  }

  /** Number of cues attributed to `id`. */
  function AttributedCount(roster: map<string, StudentId>, cues: seq<Cue>, id: StudentId): nat
    decreases |cues|
  {
    if cues == [] then 0
    else AttributedCount(roster, cues[..|cues| - 1], id) + (if Attributed(roster, cues[|cues| - 1], id) then 1 else 0)
  }

  /** The labels of the cues, in order. */
  function Labels(cues: seq<Cue>): (r: seq<string>)
    ensures |r| == |cues| && forall k :: 0 <= k < |cues| ==> r[k] == cues[k].speaker
  {
    seq(|cues|, k requires 0 <= k < |cues| => cues[k].speaker)
  }

  /** Each cue appends exactly its own label to the speaking order, whether
      or not it is a roster name. */
  lemma {:induction false} SegmentOrder(roster: map<string, StudentId>, init: Tally, cues: seq<Cue>)
    ensures Segment(roster, init, cues).speaking_order == init.speaking_order + Labels(cues)
    decreases |cues|
  {
    if cues != [] {
      SegmentOrder(roster, init, cues[..|cues| - 1]);
      assert Labels(cues) == Labels(cues[..|cues| - 1]) + [cues[|cues| - 1].speaker];
    }
  }

  /** The set of students with stats never changes. */
  lemma {:induction false} SegmentKeys(roster: map<string, StudentId>, init: Tally, cues: seq<Cue>)
    ensures Segment(roster, init, cues).student_stats.Keys == init.student_stats.Keys
    decreases |cues|
  {
    if cues != [] {
      SegmentKeys(roster, init, cues[..|cues| - 1]);
    }
  }

  /** Per student: time grows by exactly the durations of the cues attributed
      to the student (so a reversed range lowers it); the instance count
      never decreases and rises by at most one per attributed cue; a student
      no cue is attributed to keeps the initial stats. */
  lemma {:induction false} SegmentStudent(roster: map<string, StudentId>, init: Tally, cues: seq<Cue>, id: StudentId)
    requires id in init.student_stats
    ensures var s0, s := init.student_stats[id], Segment(roster, init, cues).student_stats;
      && id in s
      && s[id].time == s0.time + AttributedTime(roster, cues, id)
      && s0.instances <= s[id].instances <= s0.instances + AttributedCount(roster, cues, id)
      && (AttributedCount(roster, cues, id) == 0 ==> s[id] == s0)
    decreases |cues|
  {
    if cues != [] {
      SegmentStudent(roster, init, cues[..|cues| - 1], id);
    }
  }

  /** After a cue attributed to a student, that student's `last_speak_time`
      is the cue's start; a cue seen while it is 0 (never spoke, or spoke
      last at t=0) always counts a new instance. */
  lemma StepAttributed(roster: map<string, StudentId>, t: Tally, c: Cue)
    requires c.speaker in roster && roster[c.speaker] in t.student_stats
    ensures var id := roster[c.speaker];
      var s0, s := t.student_stats[id], Step(roster, t, c).student_stats[id];
      && s.last_speak_time == c.start
      && s.time == s0.time + (c.end - c.start)
      && (s0.last_speak_time == 0.0 ==> s.instances == s0.instances + 1)
      && (s0.last_speak_time != 0.0 && c.start - s0.last_speak_time > MaxGap ==> s.instances == s0.instances + 1)
  {
  }

  /** A cue whose label is not a roster name changes no stats. */
  lemma StepOffRoster(roster: map<string, StudentId>, t: Tally, c: Cue)
    requires c.speaker !in roster
    ensures Step(roster, t, c).student_stats == t.student_stats
    ensures Step(roster, t, c).speaking_order == t.speaking_order + [c.speaker]
  {
  }

  // --- Worked examples ------------------------------------------------------

  /** Two and three cues are two and three steps. */
  lemma SegmentTwo(roster: map<string, StudentId>, init: Tally, c1: Cue, c2: Cue)
    ensures Segment(roster, init, [c1, c2]) == Step(roster, Step(roster, init, c1), c2)
  {
    SegmentSnoc(roster, init, [], c1);
    SegmentSnoc(roster, init, [c1], c2);
    assert [c1] + [c2] == [c1, c2];
  }

  lemma SegmentThree(roster: map<string, StudentId>, init: Tally, c1: Cue, c2: Cue, c3: Cue)
    ensures Segment(roster, init, [c1, c2, c3]) == Step(roster, Step(roster, Step(roster, init, c1), c2), c3)
  {
    SegmentTwo(roster, init, c1, c2);
    SegmentSnoc(roster, init, [c1, c2], c3);
    assert [c1, c2] + [c3] == [c1, c2, c3];
  }

  /** A class of two, "A" (id 1) and "B" (id 2). */
  function ExampleRoster(): map<string, StudentId> {
    map["A" := 1, "B" := 2]
  }

  function ExampleStart(): Tally {
    Tally(map[1 := Stats(0.0, 0, 0.0), 2 := Stats(0.0, 0, 0.0)], [])
  }

  /** A@1, A@10, A@100: the 90-second gap opens a second instance. */
  lemma ExampleGap()
    ensures var t := Segment(ExampleRoster(), ExampleStart(), [Cue(1.0, 5.0, "A"), Cue(10.0, 20.0, "A"), Cue(100.0, 110.0, "A")]);
      1 in t.student_stats && t.student_stats[1].instances == 2
  {
    var r, t0 := ExampleRoster(), ExampleStart();
    var c1, c2, c3 := Cue(1.0, 5.0, "A"), Cue(10.0, 20.0, "A"), Cue(100.0, 110.0, "A");
    SegmentThree(r, t0, c1, c2, c3);
    var t1 := Step(r, t0, c1);
    assert t1.student_stats[1] == Stats(4.0, 1, 1.0);
    var t2 := Step(r, t1, c2);
    assert t1.speaking_order + ["A"] == ["A", "A"];
    assert IndexFrom(Reversed(["A", "A"]), "A", 1) == Some(1);
    assert !AnyOnRoster(["A", "A"][1..1], r);
    assert t2.student_stats[1] == Stats(14.0, 1, 10.0);
    var t3 := Step(r, t2, c3);
    assert t3.student_stats[1].instances == 2;
  }

  /** A@1, B@5, A@10: B is on the roster, so A's second cue is a new instance. */
  lemma ExampleRosterInterruption()
    ensures var t := Segment(ExampleRoster(), ExampleStart(), [Cue(1.0, 4.0, "A"), Cue(5.0, 9.0, "B"), Cue(10.0, 12.0, "A")]);
      1 in t.student_stats && t.student_stats[1].instances == 2
  {
    var r, t0 := ExampleRoster(), ExampleStart();
    var c1, c2, c3 := Cue(1.0, 4.0, "A"), Cue(5.0, 9.0, "B"), Cue(10.0, 12.0, "A");
    SegmentThree(r, t0, c1, c2, c3);
    var t1 := Step(r, t0, c1);
    assert t1.student_stats[1] == Stats(3.0, 1, 1.0);
    var t2 := Step(r, t1, c2);
    assert t2.student_stats[1] == Stats(3.0, 1, 1.0);
    assert t2.speaking_order == ["A", "B"];
    var order := ["A", "B", "A"];
    assert t2.speaking_order + ["A"] == order;
    assert IndexFrom(Reversed(order), "A", 1) == Some(2);
    assert order[1..2] == ["B"];
    assert AnyOnRoster(order[1..2], r);
    var t3 := Step(r, t2, c3);
    assert t3.student_stats[1].instances == 2;
  }

  /** A@1, PROFESSOR@5, A@10: the professor is not on the roster, so A keeps a
      single instance. */
  lemma ExampleProfessorInterruption()
    ensures var t := Segment(ExampleRoster(), ExampleStart(), [Cue(1.0, 4.0, "A"), Cue(5.0, 9.0, "PROFESSOR"), Cue(10.0, 12.0, "A")]);
      1 in t.student_stats && t.student_stats[1].instances == 1
  {
    var r, t0 := ExampleRoster(), ExampleStart();
    var c1, c2, c3 := Cue(1.0, 4.0, "A"), Cue(5.0, 9.0, "PROFESSOR"), Cue(10.0, 12.0, "A");
    SegmentThree(r, t0, c1, c2, c3);
    var t1 := Step(r, t0, c1);
    assert t1.student_stats[1] == Stats(3.0, 1, 1.0);
    var t2 := Step(r, t1, c2);
    assert "PROFESSOR" != "A" && "PROFESSOR" != "B" by {
      assert |"PROFESSOR"| != |"A"|;
    }
    StepOffRoster(r, t1, c2);
    var order := ["A", "PROFESSOR", "A"];
    assert t2.speaking_order + ["A"] == order;
    NewInstanceRule(r, order, "A", 1.0, 10.0, 0);
    assert IsPrevious(order, "A", 0);
    assert !RosterBetween(order, 0, r);
    var t3 := Step(r, t2, c3);
    assert t3.student_stats[1].instances == 1;
  }

  /** A@0, A@10: the first cue leaves `last_speak_time` at 0, so the second is
      taken for a first turn as well. */
  lemma ExampleStartAtZero()
    ensures var t := Segment(ExampleRoster(), ExampleStart(), [Cue(0.0, 4.0, "A"), Cue(10.0, 12.0, "A")]);
      1 in t.student_stats && t.student_stats[1].instances == 2
  {
    var r, t0 := ExampleRoster(), ExampleStart();
    var c1, c2 := Cue(0.0, 4.0, "A"), Cue(10.0, 12.0, "A");
    SegmentTwo(r, t0, c1, c2);
    var t1 := Step(r, t0, c1);
    assert t1.student_stats[1] == Stats(4.0, 1, 0.0);
    var t2 := Step(r, t1, c2);
    assert t2.student_stats[1].instances == 2;
  }

  // --- The analysis loop ----------------------------------------------------

  /** The handling of one cue in `analyze_transcript`: the label is
      appended, and a roster label updates its student's stats. */
  method RecordCue(pseudonym_map: map<string, StudentId>, student_stats: map<StudentId, Stats>, speaking_order: seq<string>,
                   pseudonym: string, start_time: real, duration: real)
    returns (student_stats': map<StudentId, Stats>, speaking_order': seq<string>)
    ensures Tally(student_stats', speaking_order')
      == Step(pseudonym_map, Tally(student_stats, speaking_order), Cue(start_time, start_time + duration, pseudonym))
  {
    student_stats' := student_stats;
    speaking_order' := speaking_order + [pseudonym];
    if pseudonym in pseudonym_map && pseudonym_map[pseudonym] in student_stats {
      var student_id := pseudonym_map[pseudonym];
      var stats := student_stats[student_id];
      var time := stats.time + duration;
      var is_new_instance := false;
      var time_gap := start_time - stats.last_speak_time;
      if stats.last_speak_time == 0.0 {
        is_new_instance := true;
      } else if time_gap > MaxGap {
        is_new_instance := true;
      } else {
        match IndexFrom(Reversed(speaking_order'), pseudonym, 1)
        case None =>
          is_new_instance := true;
        case Some(j) =>
          var last_idx := |speaking_order'| - 1 - j;
          var intervening_speakers := speaking_order'[last_idx + 1..|speaking_order'| - 1];
          if AnyOnRoster(intervening_speakers, pseudonym_map) {
            is_new_instance := true;
          }
      }
      var instances := if is_new_instance then stats.instances + 1 else stats.instances;
      student_stats' := student_stats[student_id := Stats(time, instances, start_time)];
    }
  }

  /** The loop of `analyze_transcript` over the transcript lines. */
  method AnalyzeTranscript(students: seq<Student>, transcript_lines: seq<string>)
    returns (student_stats: map<StudentId, Stats>, speaking_order: seq<string>)
    ensures Tally(student_stats, speaking_order) == Analysis(students, transcript_lines)
  {
    var pseudonym_map := PseudonymMap(students);
    student_stats := InitialStats(students);
    speaking_order := [];
    ghost var init := Tally(student_stats, speaking_order);
    var i := 0;
    while i < |transcript_lines|
      invariant 0 <= i <= |transcript_lines|
      invariant Tally(student_stats, speaking_order) == Segment(pseudonym_map, init, CuesUpTo(transcript_lines, i))
    {
      var line := transcript_lines[i];
      ghost var cues := CuesUpTo(transcript_lines, i);
      if Contains(line, "-->") && i + 1 < |transcript_lines| {
        SplitOnSeveral(line, "-->");
        var times := SplitOn(line, "-->");
        var duration := ParseTimeToSeconds(Trim(times[1])) - ParseTimeToSeconds(Trim(times[0]));
        var start_time := ParseTimeToSeconds(Trim(times[0]));
        var speaker_line := transcript_lines[i + 1];
        if Contains(speaker_line, ":") {
          var pseudonym := Trim(SplitOn(speaker_line, ":")[0]);
          assert IsCue(transcript_lines, i);
          ghost var cue := CueAt(transcript_lines, i);
          assert cue == Cue(start_time, start_time + duration, pseudonym);
          assert CuesUpTo(transcript_lines, i + 1) == cues + [cue];
          ghost var before := Tally(student_stats, speaking_order);
          student_stats, speaking_order := RecordCue(pseudonym_map, student_stats, speaking_order, pseudonym, start_time, duration);
          assert Tally(student_stats, speaking_order) == Step(pseudonym_map, before, cue);
          SegmentSnoc(pseudonym_map, init, cues, cue);
          assert Tally(student_stats, speaking_order) == Segment(pseudonym_map, init, cues + [cue]);
        } else {
          assert !IsCue(transcript_lines, i);
          assert CuesUpTo(transcript_lines, i + 1) == cues;
        }
      } else {
        assert !IsCue(transcript_lines, i);
        assert CuesUpTo(transcript_lines, i + 1) == cues;
      }
      i := i + 1;
    }
  }
}
