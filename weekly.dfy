/**
 * The weekly report of weekly_report.py (`send_weekly_attendance_report`)
 * without its file and mail handling: the weekly file's (name, status) rows
 * are counted per name, and each student with an e-mail address and a record
 * gets a percentage against the configured number of classes and one of
 * three messages.
 */
module WeeklyReport {

  /** One row of the weekly file: (Name, Status). */
  type Row = (string, string)

  /** `{'present': .., 'total_sessions': ..}` for one student. */
  datatype Record = Record(present: nat, totalSessions: nat)

  /** Rows naming `name`. */
  function CountRows(rows: seq<Row>, name: string): nat
    decreases |rows|
  {
    if rows == [] then 0
    else CountRows(rows[..|rows| - 1], name) + (if rows[|rows| - 1].0 == name then 1 else 0)
  }

  /** Rows naming `name` whose status is exactly "Present". */
  function CountPresent(rows: seq<Row>, name: string): nat
    decreases |rows|
  {
    if rows == [] then 0
    else
      CountPresent(rows[..|rows| - 1], name)
      + (if rows[|rows| - 1].0 == name && rows[|rows| - 1].1 == "Present" then 1 else 0)
  }

  lemma {:induction false} PresentAtMostRows(rows: seq<Row>, name: string)
    ensures CountPresent(rows, name) <= CountRows(rows, name)
    decreases |rows|
  {
    if rows != [] {
      PresentAtMostRows(rows[..|rows| - 1], name);
    }
  }

  /** The first pass over the file: the set of names in it. */
  method CollectNames(rows: seq<Row>) returns (names: set<string>)
    ensures forall n :: n in names <==> exists i :: 0 <= i < |rows| && rows[i].0 == n
  {
    names := {};
    for i := 0 to |rows|
      invariant forall n :: n in names <==> exists k :: 0 <= k < i && rows[k].0 == n
    {
      names := names + {rows[i].0};
    }
  }

  /**
   * Both passes: a zeroed record for every name in the file, then, row by
   * row, one more session for the row's name and one more presence when its
   * status is "Present".
   */
  method Tally(rows: seq<Row>) returns (records: map<string, Record>)
    ensures forall n :: n in records <==> exists i :: 0 <= i < |rows| && rows[i].0 == n
    ensures forall n :: n in records ==>
              && records[n].totalSessions == CountRows(rows, n)
              && records[n].present == CountPresent(rows, n)
              && records[n].present <= records[n].totalSessions
  {
    var names := CollectNames(rows);
    records := map n | n in names :: Record(0, 0);
    for i := 0 to |rows|
      invariant records.Keys == names
      invariant forall n :: n in records ==>
                  && records[n].totalSessions == CountRows(rows[..i], n)
                  && records[n].present == CountPresent(rows[..i], n)
    {
      var (name, status) := rows[i];
      assert rows[..i + 1][..i] == rows[..i];
      if name in records {
        records := records[name := records[name].(totalSessions := records[name].totalSessions + 1)];
        if status == "Present" {
          records := records[name := records[name].(present := records[name].present + 1)];
        }
      }
    }
    assert rows[..|rows|] == rows;
    forall n | n in records ensures records[n].present <= records[n].totalSessions {
      PresentAtMostRows(rows, n);
    }
  }

  /**
   * `present / max_classes * 100`, and 0 when `max_classes` is not positive.
   * The per-student session count plays no part.
   */
  function Percentage(present: int, maxClasses: int): (pct: real)
    ensures maxClasses <= 0 ==> pct == 0.0
    ensures maxClasses > 0 ==> pct * (maxClasses as real) == (100 * present) as real
  {
    if maxClasses > 0 then (present as real) / (maxClasses as real) * 100.0 else 0.0
  }

  datatype Band = QuiteLow | RoomForImprovement | GreatJob

  /** The `if / elif / else` on the percentage. */
  function BandOf(pct: real): Band
  {
    if pct < 50.0 then QuiteLow
    else if pct < 80.0 then RoomForImprovement
    else GreatJob
  }

  const QuiteLowText: string :=
    "Your attendance is quite low. Please try to attend more classes to improve your participation."
  const ImprovementText: string :=
    "You're attending some classes, but there's room for improvement. Aim to attend more sessions."
  const GreatJobText: string :=
    "Great job! You're attending most classes. Keep up the good work!"

  /** The message text of the e-mail for a band. */
  function Message(b: Band): string
  {
    match b
    case QuiteLow => QuiteLowText
    case RoomForImprovement => ImprovementText
    case GreatJob => GreatJobText
  }

  /**
   * The band in exact integer terms: below half of the classes is quite low,
   * from half up to but excluding four fifths leaves room for improvement,
   * four fifths and more is a great job.
   */
  lemma BandThresholds(present: int, maxClasses: int)
    requires maxClasses > 0
    ensures BandOf(Percentage(present, maxClasses)) == QuiteLow <==> 100 * present < 50 * maxClasses
    ensures BandOf(Percentage(present, maxClasses)) == RoomForImprovement
            <==> 50 * maxClasses <= 100 * present < 80 * maxClasses
    ensures BandOf(Percentage(present, maxClasses)) == GreatJob <==> 80 * maxClasses <= 100 * present
  {
    ScaledThresholds(Percentage(present, maxClasses), maxClasses, 100 * present);
  }

  /**
   * For a percentage `pct` with `pct * m == scaled`, comparing `pct` with a
   * cut-off is comparing `scaled` with that cut-off times `m`.
   */
  lemma ScaledThresholds(pct: real, m: int, scaled: int)
    requires m > 0
    requires pct * (m as real) == scaled as real
    ensures pct < 50.0 <==> scaled < 50 * m
    ensures pct < 80.0 <==> scaled < 80 * m
  {
    ScaledCutOff(pct, m, scaled, 50);
    ScaledCutOff(pct, m, scaled, 80);
  }

  /** One cut-off `c` of `ScaledThresholds`. */
  lemma ScaledCutOff(pct: real, m: int, scaled: int, c: int)
    requires m > 0
    requires pct * (m as real) == scaled as real
    ensures pct < c as real <==> scaled < c * m
  {
    PositiveScaling(pct, c as real, m as real);
    assert (c * m) as real == (c as real) * (m as real);
  }

  /** Multiplying both sides by a positive factor keeps `<`. */
  lemma PositiveScaling(x: real, bound: real, m: real)
    requires m > 0.0
    ensures x < bound <==> x * m < bound * m
  {
    if x < bound {
      assert (bound - x) * m > 0.0;
    } else {
      assert (x - bound) * m >= 0.0 by {
        if x > bound {
          assert (x - bound) * m > 0.0;
        }
      }
    }
  }

  /** With no configured classes every student gets the "quite low" message. */
  lemma NoClassesMeansQuiteLow(present: int, maxClasses: int)
    requires maxClasses <= 0
    ensures BandOf(Percentage(present, maxClasses)) == QuiteLow
  {
  }

  function Rank(b: Band): nat
  {
    match b
    case QuiteLow => 0
    case RoomForImprovement => 1
    case GreatJob => 2
  }

  /** Attending more never gives a worse message. */
  lemma BandMonotone(fewer: int, more: int, maxClasses: int)
    requires fewer <= more
    ensures Rank(BandOf(Percentage(fewer, maxClasses))) <= Rank(BandOf(Percentage(more, maxClasses)))
  {
    if maxClasses > 0 {
      BandThresholds(fewer, maxClasses);
      BandThresholds(more, maxClasses);
    }
  }

  /** What one e-mail reports; its message text is `Message(band)`. */
  datatype StudentReport = StudentReport(
    student: string, email: string, attended: nat, outOf: int, percentage: real, band: Band)

  function ReportFor(student: string, email: string, record: Record, maxClasses: int): StudentReport
  {
    var pct := Percentage(record.present, maxClasses);
    StudentReport(student, email, record.present, maxClasses, pct, BandOf(pct))
  }

  /**
   * The mailed text follows the attendance alone: below half of the
   * configured classes (or with none configured) it is the "quite low" text,
   * from four fifths on it is the "great job" text, and in between the
   * "room for improvement" text.
   */
  lemma ReportMessage(student: string, email: string, record: Record, maxClasses: int)
    ensures var text := Message(ReportFor(student, email, record, maxClasses).band);
      && (maxClasses <= 0 || 100 * record.present < 50 * maxClasses ==> text == QuiteLowText)
      && (maxClasses > 0 && 50 * maxClasses <= 100 * record.present < 80 * maxClasses ==>
            text == ImprovementText)
      && (maxClasses > 0 && 80 * maxClasses <= 100 * record.present ==> text == GreatJobText)
  {
    if maxClasses > 0 {
      BandThresholds(record.present, maxClasses);
    }
  }

  /** The three messages are different texts, so the message tells the band. */
  lemma MessagesDistinct(a: Band, b: Band)
    ensures Message(a) == Message(b) <==> a == b
  {
    // the three texts have different lengths
    assert |QuiteLowText| == 94 && |ImprovementText| == 93 && |GreatJobText| == 64;
  }

  /**
   * The loop over `students_emails.items()`, given as the dictionary's
   * (student, e-mail) pairs in order: a student with no record is skipped.
   */
  function WeeklyReports(emails: seq<(string, string)>, records: map<string, Record>, maxClasses: int)
    : (reports: seq<StudentReport>)
    ensures |reports| <= |emails|
    ensures forall k :: 0 <= k < |reports| ==>
              && (reports[k].student, reports[k].email) in emails
              && reports[k].student in records
              && reports[k] == ReportFor(reports[k].student, reports[k].email, records[reports[k].student], maxClasses)
    ensures forall i :: 0 <= i < |emails| && emails[i].0 in records ==>
              ReportFor(emails[i].0, emails[i].1, records[emails[i].0], maxClasses) in reports
    decreases |emails|
  {
    if emails == [] then []
    else
      var (student, email) := emails[0];
      var rest := WeeklyReports(emails[1..], records, maxClasses);
      assert forall i :: 1 <= i < |emails| ==> emails[i] == emails[1..][i - 1];
      if student !in records then rest
      else [ReportFor(student, email, records[student], maxClasses)] + rest
  }

  /** The reports keep the order of the e-mail list. */
  lemma {:induction false} WeeklyReportsConcat(
    a: seq<(string, string)>, b: seq<(string, string)>, records: map<string, Record>, maxClasses: int)
    ensures WeeklyReports(a + b, records, maxClasses)
            == WeeklyReports(a, records, maxClasses) + WeeklyReports(b, records, maxClasses)
    decreases |a|
  {
    if a == [] {
      assert a + b == b;
    } else {
      assert (a + b)[0] == a[0] && (a + b)[1..] == a[1..] + b;
      WeeklyReportsConcat(a[1..], b, records, maxClasses);
    }
  }
}
