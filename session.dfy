/**
 * The attendance session of main.py: the ten-minute class window, the frame
 * loop, and the rule that commits a recognised name to the `attendance`
 * dictionary at most once.
 *
 * A frame is what one turn of the `while True` loop sees: the clock reading at
 * the top of the loop, whether `cap.read()` succeeded, what happened to each
 * person box the detector returned, and whether the `x` key was pressed.
 * Clock readings are whole seconds.
 */
module Session {
  import opened Liveliness
  import opened Identity
  import opened Deepfake

  /** The class window: `class_end_time = class_start_time + timedelta(minutes=10)`. */
  const ClassLength: int := 600

  /** What happened for one person box. */
  datatype Detection =
    | NoFace
      // InsightFace found no face in the crop
    | Face(box: Box, scores: seq<real>, reply: Reply, at: int)
      // similarity to each known name, the deepfake server's reply, and the
      // clock reading used both by the liveliness check and as entry time

  datatype Frame = Frame(now: int, captured: bool, detections: seq<Detection>, quitPressed: bool)

  datatype StopReason =
    | ClassEnded       // `current_time >= class_end_time` at the top of the loop
    | CaptureFailed    // `cap.read()` returned no frame
    | EndedByUser      // the `x` key after a frame was processed
    | FramesExhausted  // the finite input ran out (the source loops forever)

  /** The liveliness table and `attendance`: name to entry time. */
  datatype State = State(positions: Table, attendance: map<string, int>)

  datatype SessionResult =
    | NeverStarted
      // launched after the class had already ended: the program exits
    | Closed(attendance: map<string, int>, reason: StopReason, absent: seq<string>)

  /** Each face carries one score per known name, and there is at least one. */
  predicate DetectionFits(known: seq<string>, d: Detection)
  {
    d.Face? ==> 0 < |d.scores| == |known|
  }

  predicate DetectionsFit(known: seq<string>, ds: seq<Detection>)
  {
    forall j :: 0 <= j < |ds| ==> DetectionFits(known, ds[j])
  }

  predicate FramesFit(known: seq<string>, frames: seq<Frame>)
  {
    forall i :: 0 <= i < |frames| ==> DetectionsFit(known, frames[i].detections)
  }

  /**
   * One person box (main.py:341-371). A recognised face always gets the
   * deepfake call and the liveliness check, and so always updates the
   * liveliness table, even when the name is already present; only then does
   * the `name not in attendance` guard decide whether to commit.
   */
  function Observe(st: State, known: seq<string>, d: Detection): State
    requires DetectionFits(known, d)
  {
    match d
    case NoFace => st
    case Face(box, scores, reply, at) =>
      var m := Match(known, scores);
      if m.Unknown? then st
      else
        var verdict := MapReply(reply);
        var (positions', live) := Step(st.positions, m.name, box, at);
        if m.name !in st.attendance && verdict.status == Str("Real") && live
        then State(positions', st.attendance[m.name := at])
        else State(positions', st.attendance)
  }

  /** All person boxes of one frame, in order. */
  function ObserveAll(st: State, known: seq<string>, ds: seq<Detection>): State
    requires DetectionsFit(known, ds)
    decreases |ds|
  {
    if ds == [] then st
    else ObserveAll(Observe(st, known, ds[0]), known, ds[1..])
  }

  /** True when this frame ends the loop. */
  predicate Halts(f: Frame, classEnd: int)
  {
    f.now >= classEnd || !f.captured || f.quitPressed
  }

  function HaltReason(f: Frame, classEnd: int): StopReason
    requires Halts(f, classEnd)
  {
    if f.now >= classEnd then ClassEnded
    else if !f.captured then CaptureFailed
    else EndedByUser
  }

  /**
   * The frame loop (main.py:318-384): the clock test comes first, then the
   * frame read, then every box, then the key test.
   */
  function Run(st: State, known: seq<string>, classEnd: int, frames: seq<Frame>): (State, StopReason)
    requires FramesFit(known, frames)
    decreases |frames|
  {
    if frames == [] then (st, FramesExhausted)
    else
      var f := frames[0];
      if f.now >= classEnd then (st, ClassEnded)
      else if !f.captured then (st, CaptureFailed)
      else
        var st' := ObserveAll(st, known, f.detections);
        if f.quitPressed then (st', EndedByUser)
        else Run(st', known, classEnd, frames[1..])
  }

  /** The absentee list: `known` in order, without the names present. */
  function Absentees(known: seq<string>, attendance: map<string, int>): (absent: seq<string>)
    ensures |absent| <= |known|
  {
    if known == [] then []
    else (if known[0] in attendance then [] else [known[0]]) + Absentees(known[1..], attendance)
  }

  /**
   * A whole session. A launch after the class end exits before anything is
   * set up (main.py:149-152); otherwise the program sleeps until the start,
   * resets the liveliness table, runs the loop on an empty `attendance`, and
   * lists the absentees.
   */
  function Outcome(known: seq<string>, classStart: int, launchedAt: int, frames: seq<Frame>): SessionResult
    requires FramesFit(known, frames)
  {
    var classEnd := classStart + ClassLength;
    if launchedAt > classEnd then NeverStarted
    else
      var (st, reason) := Run(State(map[], map[]), known, classEnd, frames);
      Closed(st.attendance, reason, Absentees(known, st.attendance))
  }

  // ---------------------------------------------------------------------------
  // The imperative session, driving the shared liveliness tracker
  // ---------------------------------------------------------------------------

  /**
   * The body of main.py from the time check to the absentee list, with the
   * `previous_positions` table held by `tracker`.
   */
  method RunSession(tracker: Tracker, known: seq<string>, classStart: int, launchedAt: int, frames: seq<Frame>)
    returns (result: SessionResult)
    requires FramesFit(known, frames)
    modifies tracker
    ensures result == Outcome(known, classStart, launchedAt, frames)
    ensures result.NeverStarted? ==> tracker.previousPositions == old(tracker.previousPositions)
    ensures result.Closed? ==>
              tracker.previousPositions
              == Run(State(map[], map[]), known, classStart + ClassLength, frames).0.positions
  {
    var classEnd := classStart + ClassLength;
    if launchedAt > classEnd {
      return NeverStarted;
    }
    // waiting for the class start is a sleep and changes nothing
    var attendance: map<string, int> := map[];
    tracker.Reset();
    ghost var goal := Run(State(map[], map[]), known, classEnd, frames);
    var reason := FramesExhausted;
    var i := 0;
    while i < |frames|
      invariant 0 <= i <= |frames|
      invariant FramesFit(known, frames[i..])
      invariant goal == Run(State(tracker.previousPositions, attendance), known, classEnd, frames[i..])
    {
      var frame := frames[i];
      assert frames[i..][0] == frame;
      if frame.now >= classEnd {
        reason := ClassEnded;
        break;
      }
      if !frame.captured {
        reason := CaptureFailed;
        break;
      }
      assert DetectionsFit(known, frame.detections) by {
        assert frames[i..][0] == frame;
      }
      attendance := ProcessFrame(tracker, known, attendance, frame.detections);
      if frame.quitPressed {
        reason := EndedByUser;
        break;
      }
      assert frames[i..][1..] == frames[i + 1..];
      i := i + 1;
    }
    result := Closed(attendance, reason, Absentees(known, attendance));
  }

  /** The inner `for` loop over the person boxes of one frame. */
  method ProcessFrame(tracker: Tracker, known: seq<string>, attendance: map<string, int>, ds: seq<Detection>)
    returns (attendance': map<string, int>)
    requires DetectionsFit(known, ds)
    modifies tracker
    ensures State(tracker.previousPositions, attendance')
            == ObserveAll(State(old(tracker.previousPositions), attendance), known, ds)
  {
    attendance' := attendance;
    ghost var goal := ObserveAll(State(tracker.previousPositions, attendance), known, ds);
    for j := 0 to |ds|
      invariant goal == ObserveAll(State(tracker.previousPositions, attendance'), known, ds[j..])
    {
      assert ds[j..][0] == ds[j] && ds[j..][1..] == ds[j + 1..];
      match ds[j]
      case NoFace =>
      case Face(box, scores, reply, at) =>
        var m := Match(known, scores);
        if m.Recognized? {
          var verdict := MapReply(reply);
          var live := tracker.CheckLiveliness(m.name, box, at);
          if m.name !in attendance' && verdict.status == Str("Real") && live {
            attendance' := attendance'[m.name := at];
          }
        }
    }
  }

  // ---------------------------------------------------------------------------
  // Properties of the session
  // ---------------------------------------------------------------------------

  /**
   * The single commit point: a box changes `attendance` only by adding its
   * recognised name, and it does so exactly when the name is not yet present,
   * the deepfake status is "Real" and the liveliness check says live.
   */
  lemma ObserveCommitRule(st: State, known: seq<string>, d: Detection)
    requires DetectionFits(known, d)
    ensures var r := Observe(st, known, d);
      if d.Face? && Match(known, d.scores).Recognized?
         && Match(known, d.scores).name !in st.attendance
         && MapReply(d.reply).status == Str("Real")
         && Step(st.positions, Match(known, d.scores).name, d.box, d.at).1
      then r.attendance == st.attendance[Match(known, d.scores).name := d.at]
      else r.attendance == st.attendance
  {
  }

  /**
   * The liveliness table is updated for every recognised face, whether or not
   * the name is already present, and only for recognised faces.
   */
  lemma ObservePositions(st: State, known: seq<string>, d: Detection)
    requires DetectionFits(known, d)
    ensures var r := Observe(st, known, d);
      if d.Face? && Match(known, d.scores).Recognized?
      then r.positions == st.positions[Match(known, d.scores).name := Sample(Center(d.box), d.at)]
      else r.positions == st.positions
  {
  }

  /** With the deepfake server failing, a new face is committed exactly when it is live. */
  lemma FailOpenLeavesLiveliness(st: State, known: seq<string>, d: Detection)
    requires DetectionFits(known, d)
    requires d.Face? && !WellFormed(d.reply)
    requires Match(known, d.scores).Recognized?
    requires Match(known, d.scores).name !in st.attendance
    ensures var name := Match(known, d.scores).name;
      name in Observe(st, known, d).attendance
      <==> Step(st.positions, name, d.box, d.at).1
  {
  }

  /** A predicate for "r extends m": every entry of m is in r with the same value. */
  ghost predicate Extends(r: map<string, int>, m: map<string, int>)
  {
    forall n :: n in m ==> n in r && r[n] == m[n]
  }

  ghost predicate KeysKnown(m: map<string, int>, known: seq<string>)
  {
    forall n :: n in m ==> n in known
  }

  lemma {:induction false} ObserveAllExtends(st: State, known: seq<string>, ds: seq<Detection>)
    requires DetectionsFit(known, ds)
    ensures Extends(ObserveAll(st, known, ds).attendance, st.attendance)
    ensures KeysKnown(st.attendance, known) ==> KeysKnown(ObserveAll(st, known, ds).attendance, known)
    decreases |ds|
  {
    if ds != [] {
      assert DetectionsFit(known, ds[1..]) by {
        forall j | 0 <= j < |ds[1..]| ensures DetectionFits(known, ds[1..][j]) {
          assert ds[1..][j] == ds[j + 1];
        }
      }
      ObserveAllExtends(Observe(st, known, ds[0]), known, ds[1..]);
    }
  }

  /**
   * Exactly-once over a whole loop: entries are never removed or
   * overwritten, and every key names a known person.
   */
  lemma {:induction false} RunExtends(st: State, known: seq<string>, classEnd: int, frames: seq<Frame>)
    requires FramesFit(known, frames)
    ensures Extends(Run(st, known, classEnd, frames).0.attendance, st.attendance)
    ensures KeysKnown(st.attendance, known) ==>
              KeysKnown(Run(st, known, classEnd, frames).0.attendance, known)
    decreases |frames|
  {
    if frames != [] && frames[0].now < classEnd && frames[0].captured {
      var st' := ObserveAll(st, known, frames[0].detections);
      ObserveAllExtends(st, known, frames[0].detections);
      if !frames[0].quitPressed {
        assert FramesFit(known, frames[1..]) by {
          forall i | 0 <= i < |frames[1..]| ensures DetectionsFit(known, frames[1..][i].detections) {
            assert frames[1..][i] == frames[i + 1];
          }
        }
        RunExtends(st', known, classEnd, frames[1..]);
      }
    }
  }

  /** The index of the first frame that ends the loop, or |frames| if none does. */
  function FirstHalt(frames: seq<Frame>, classEnd: int): (k: nat)
    ensures k <= |frames|
    ensures forall j :: 0 <= j < k ==> !Halts(frames[j], classEnd)
    ensures k < |frames| ==> Halts(frames[k], classEnd)
    decreases |frames|
  {
    if frames == [] then 0
    else if Halts(frames[0], classEnd) then 0
    else 1 + FirstHalt(frames[1..], classEnd)
  }

  /**
   * The loop stops at the first frame whose clock reading reaches the class
   * end, whose read fails, or after which `x` is pressed; that frame gives the
   * reason, and later frames have no effect.
   */
  lemma {:induction false} RunStopsAtFirstHalt(st: State, known: seq<string>, classEnd: int, frames: seq<Frame>)
    requires FramesFit(known, frames)
    ensures var k := FirstHalt(frames, classEnd);
      && (k == |frames| ==> Run(st, known, classEnd, frames).1 == FramesExhausted)
      && (k < |frames| ==>
            && Run(st, known, classEnd, frames).1 == HaltReason(frames[k], classEnd)
            && Run(st, known, classEnd, frames) == Run(st, known, classEnd, frames[..k + 1]))
    decreases |frames|
  {
    if frames != [] && !Halts(frames[0], classEnd) {
      var k := FirstHalt(frames, classEnd);
      var st' := ObserveAll(st, known, frames[0].detections);
      assert FramesFit(known, frames[1..]) by {
        forall i | 0 <= i < |frames[1..]| ensures DetectionsFit(known, frames[1..][i].detections) {
          assert frames[1..][i] == frames[i + 1];
        }
      }
      RunStopsAtFirstHalt(st', known, classEnd, frames[1..]);
      assert FirstHalt(frames[1..], classEnd) == k - 1;
      if k < |frames| {
        assert frames[..k + 1][0] == frames[0];
        assert frames[..k + 1][1..] == frames[1..][..k];
      }
    }
  }

  lemma {:induction false} SetOfSeqBound(keys: set<string>, s: seq<string>)
    requires forall n :: n in keys ==> n in s
    ensures |keys| <= |s|
    decreases |s|
  {
    if s == [] {
      assert keys == {};
    } else {
      var rest := keys - {s[0]};
      forall n | n in rest ensures n in s[1..] {
        var k :| 0 <= k < |s| && s[k] == n;
        assert k != 0 && s[1..][k - 1] == n;
      }
      SetOfSeqBound(rest, s[1..]);
    }
  }

  /**
   * A whole session: it never starts exactly when launched after the class
   * end; once it runs, every present name is known, there are at most as many
   * as known names, and the absentees are the known names not present.
   */
  lemma OutcomeProperties(known: seq<string>, classStart: int, launchedAt: int, frames: seq<Frame>)
    requires FramesFit(known, frames)
    ensures var r := Outcome(known, classStart, launchedAt, frames);
      && (r.NeverStarted? <==> launchedAt > classStart + ClassLength)
      && (r.Closed? ==>
            && (forall n :: n in r.attendance ==> n in known)
            && |r.attendance| <= |known|
            && (forall n :: n in r.absent ==> n !in r.attendance)
            && (forall n :: n in known ==> n in r.absent || n in r.attendance))
  {
    var r := Outcome(known, classStart, launchedAt, frames);
    if r.Closed? {
      RunExtends(State(map[], map[]), known, classStart + ClassLength, frames);
      SetOfSeqBound(r.attendance.Keys, known);
      AbsenteesMembers(known, r.attendance);
    }
  }

  /**
   * A name is absent iff it is known and not present: the absentees and the
   * present names are disjoint and together cover the known names.
   */
  lemma {:induction false} AbsenteesMembers(known: seq<string>, attendance: map<string, int>)
    ensures forall n :: n in Absentees(known, attendance) <==> n in known && n !in attendance
    decreases |known|
  {
    if known != [] {
      AbsenteesMembers(known[1..], attendance);
      forall n ensures n in known <==> n == known[0] || n in known[1..] {
        if n in known && n != known[0] {
          var k :| 0 <= k < |known| && known[k] == n;
          assert known[1..][k - 1] == n;
        }
      }
    }
  }

  /** The absentee list keeps the order of the known list. */
  lemma {:induction false} AbsenteesConcat(a: seq<string>, b: seq<string>, attendance: map<string, int>)
    ensures Absentees(a + b, attendance) == Absentees(a, attendance) + Absentees(b, attendance)
    decreases |a|
  {
    if a == [] {
      assert a + b == b;
    } else {
      assert (a + b)[0] == a[0] && (a + b)[1..] == a[1..] + b;
      AbsenteesConcat(a[1..], b, attendance);
    }
  }

  /**
   * A concrete run: Alice, the only known name, is seen at t=0 centred on
   * (100, 100), at t=2 centred on (130, 100), and at t=3 again. The first
   * sighting is a cold start, the second moves 30 pixels and commits Alice at
   * t=2, and the third leaves that entry alone.
   */
  lemma AliceScenario()
    ensures var reply := Object(map["label" := Str("Real"), "confidence" := Num(0.9)]);
      var frames := [
        Frame(0, true, [Face(Box(90, 90, 110, 110), [0.6], reply, 0)], false),
        Frame(2, true, [Face(Box(120, 90, 140, 110), [0.6], reply, 2)], false),
        Frame(3, true, [Face(Box(120, 90, 140, 110), [0.6], reply, 3)], false),
        Frame(600, true, [], false)];
      Outcome(["Alice"], 0, 0, frames) == Closed(map["Alice" := 2], ClassEnded, [])
  {
  }
}
