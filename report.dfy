/**
 * The rows of the teacher's report in main.py
 * (`send_attendance_report_to_teacher`). `present_dict` is built from the rows
 * of the daily attendance file, which holds one row per name committed to
 * `attendance`, so it is the session's `attendance` map: name to entry time in
 * seconds. Writing the file and mailing it are left out.
 */
module SessionReport {
  import Session

  datatype Status = Present | Absent

  /**
   * The lateness column: "N/A" for an absent student, otherwise the seconds
   * between session start and entry (printed as minutes); any non-positive
   * value prints as "0.00", here `LateBy(0)`.
   */
  datatype Lateness = NotApplicable | LateBy(seconds: nat)

  datatype ReportRow = ReportRow(student: string, status: Status, lateness: Lateness)

  /** What the report says about one student. */
  predicate DescribesStudent(row: ReportRow, student: string, present: map<string, int>, sessionStart: int)
  {
    && row.student == student
    && (row.status == Present <==> student in present)
    && (student !in present ==> row.lateness == NotApplicable)
    && (student in present && present[student] > sessionStart ==>
          row.lateness == LateBy(present[student] - sessionStart))
    && (student in present && present[student] <= sessionStart ==> row.lateness == LateBy(0))
  }

  /** One row per known name, in the order of the known list. */
  method TeacherReportRows(known: seq<string>, present: map<string, int>, sessionStart: int)
    returns (rows: seq<ReportRow>)
    ensures |rows| == |known|
    ensures forall i :: 0 <= i < |known| ==> DescribesStudent(rows[i], known[i], present, sessionStart)
  {
    rows := [];
    for i := 0 to |known|
      invariant |rows| == i
      invariant forall k :: 0 <= k < i ==> DescribesStudent(rows[k], known[k], present, sessionStart)
    {
      var student := known[i];
      var row: ReportRow;
      if student in present {
        var lateness := present[student] - sessionStart;
        row := ReportRow(student, Present, if lateness > 0 then LateBy(lateness) else LateBy(0));
      } else {
        row := ReportRow(student, Absent, NotApplicable);
      }
      rows := rows + [row];
    }
  }

  /** The students of the "Absent" rows, in order. */
  function AbsentStudents(rows: seq<ReportRow>): seq<string>
  {
    if rows == [] then []
    else (if rows[0].status == Absent then [rows[0].student] else []) + AbsentStudents(rows[1..])
  }

  /**
   * The report agrees with the session: its "Absent" rows list exactly the
   * session's absentees, in the same order.
   */
  lemma {:induction false} ReportAgreesWithAbsentees(
    rows: seq<ReportRow>, known: seq<string>, present: map<string, int>, sessionStart: int)
    requires |rows| == |known|
    requires forall i :: 0 <= i < |known| ==> DescribesStudent(rows[i], known[i], present, sessionStart)
    ensures AbsentStudents(rows) == Session.Absentees(known, present)
    decreases |rows|
  {
    if rows != [] {
      assert DescribesStudent(rows[0], known[0], present, sessionStart);
      forall i | 0 <= i < |known[1..]|
        ensures DescribesStudent(rows[1..][i], known[1..][i], present, sessionStart)
      {
        assert rows[1..][i] == rows[i + 1] && known[1..][i] == known[i + 1];
      }
      ReportAgreesWithAbsentees(rows[1..], known[1..], present, sessionStart);
    }
  }
}
