/** The click interaction policy of the weekly and monthly grids. A weekly
    cell click toggles attendance, a third quick click on the same cell
    clears it, holidays block toggling, a right click opens the absence note
    editor and a shift right click flips the holiday mark. The click
    detector's three variables (last click time, click count, last clicked
    cell) live in a ClickTracker object; the pure functions Step and Click
    say what one click does to them and to the data. The clock is a
    parameter. */
module Interaction {
  import opened Wrappers
  import opened Ledger
  import Holidays
  import App
  import Stats

  /** Two clicks on the same cell less than this many milliseconds apart are one gesture. */
  const TripleClickWindow := 500

  /** The cell identifier "subjectId-dateKey". */
  function CellId(sid: SubjectId, key: DateKey): string
  {
    sid + "-" + key
  }

  /** Subject ids are decimal timestamps and never contain '-', so a cell identifier names
      exactly one subject and date. */
  lemma CellIdInjective(s1: SubjectId, k1: DateKey, s2: SubjectId, k2: DateKey)
    requires '-' !in s1 && '-' !in s2
    requires CellId(s1, k1) == CellId(s2, k2)
    ensures s1 == s2 && k1 == k2
  {
    var c := CellId(s1, k1);
    assert forall i :: 0 <= i < |s1| ==> c[i] == s1[i] && c[i] != '-';
    assert forall i :: 0 <= i < |s2| ==> c[i] == s2[i] && c[i] != '-';
    assert c[|s1|] == '-' && c[|s2|] == '-';
    assert |s1| == |s2|;
    assert s1 == c[..|s1|] && s2 == c[..|s2|];
    assert k1 == c[|s1| + 1..] && k2 == c[|s2| + 1..];
  }

  // ---------------------------------------------------------------------
  // The click detector

  datatype ClickState = ClickState(lastClickTime: int, clickCount: int, lastClickedCell: Option<string>)

  /** The detector at start-up. */
  const Initial := ClickState(0, 0, None)

  /** Between clicks the count is 0 with no armed cell, or 1 or 2 with one. */
  predicate ValidClicks(st: ClickState)
  {
    (st.lastClickedCell.None? && st.clickCount == 0) || (st.lastClickedCell.Some? && 1 <= st.clickCount <= 2)
  }

  /** What a click asks for: a toggle (first and second click) or a clear (third quick click). */
  datatype Gesture = ToggleCell | ClearCell

  datatype Outcome = Outcome(next: ClickState, gesture: Gesture)

  /** One click on a cell at time now: a click on the armed cell within the window counts up,
      and the third clears and disarms without moving the click time; any other click starts a
      new sequence at 1. */
  function Step(st: ClickState, cell: string, now: int): (o: Outcome)
    ensures o.gesture == ClearCell <==>
      st.lastClickedCell == Some(cell) && now - st.lastClickTime < TripleClickWindow && st.clickCount + 1 >= 3
    ensures o.gesture == ClearCell ==> o.next == ClickState(st.lastClickTime, 0, None)
    ensures o.gesture == ToggleCell ==> o.next.lastClickTime == now && o.next.lastClickedCell == Some(cell)
    ensures o.gesture == ToggleCell ==>
      o.next.clickCount == if st.lastClickedCell == Some(cell) && now - st.lastClickTime < TripleClickWindow then st.clickCount + 1 else 1
  {
    if st.lastClickedCell == Some(cell) && now - st.lastClickTime < TripleClickWindow then
      var count := st.clickCount + 1;
      if count >= 3 then Outcome(ClickState(st.lastClickTime, 0, None), ClearCell)
      else Outcome(ClickState(now, count, Some(cell)), ToggleCell)
    else Outcome(ClickState(now, 1, Some(cell)), ToggleCell)
  }

  /** Every click leaves the detector in a valid state. */
  lemma StepKeepsValid(st: ClickState, cell: string, now: int)
    requires ValidClicks(st)
    ensures ValidClicks(Step(st, cell, now).next)
  {
  }

  /** With the detector valid, a click never finds the count already at 3 or more, so a clear
      happens exactly on the third click of a quick sequence on the same cell. */
  lemma ClearOnlyOnThird(st: ClickState, cell: string, now: int)
    requires ValidClicks(st)
    ensures Step(st, cell, now).gesture == ClearCell <==>
      st.lastClickedCell == Some(cell) && now - st.lastClickTime < TripleClickWindow && st.clickCount == 2
  {
  }

  // ---------------------------------------------------------------------
  // What a click does to the data

  /** The current semester's ledger and the holiday registry. */
  datatype Board = Board(attendance: Attendance, holidays: set<DateKey>)

  /** A toggle is blocked on a holiday; a clear un-marks a holiday, or else deletes the entry. */
  function Apply(b: Board, g: Gesture, sid: SubjectId, key: DateKey): (r: Board)
    ensures g == ToggleCell && key in b.holidays ==> r == b
    ensures g == ClearCell && key in b.holidays ==> r.attendance == b.attendance && r.holidays == b.holidays - {key}
    ensures g == ToggleCell && key !in b.holidays ==> r.attendance == Ledger.Toggle(b.attendance, sid, key)
    ensures g == ClearCell && key !in b.holidays ==> r.attendance == ClearEntry(b.attendance, sid, key)
    ensures key !in b.holidays ==> r.holidays == b.holidays
  {
    match g
    case ToggleCell =>
      if key in b.holidays then b else b.(attendance := Ledger.Toggle(b.attendance, sid, key))
    case ClearCell =>
      if key in b.holidays then b.(holidays := Holidays.Toggle(b.holidays, key))
      else b.(attendance := ClearEntry(b.attendance, sid, key))
  }

  datatype ClickResult = ClickResult(clicks: ClickState, board: Board)

  /** handleCellClick as a function of the detector and the data. */
  function Click(st: ClickState, b: Board, sid: SubjectId, key: DateKey, now: int): ClickResult
  {
    var o := Step(st, CellId(sid, key), now);
    ClickResult(o.next, Apply(b, o.gesture, sid, key))
  }

  /** Three clicks on a cell, each less than the window after the previous one, starting from a
      detector not armed on that cell: toggle, toggle, then clear, leaving the detector disarmed.
      On a working day the cell ends with no entry and every other cell as it was; on a holiday
      the ledger is untouched and the holiday mark is gone. */
  lemma TripleClickClears(st: ClickState, b: Board, sid: SubjectId, key: DateKey, t1: int, t2: int, t3: int)
    requires ValidClicks(st)
    requires st.lastClickedCell != Some(CellId(sid, key)) || t1 - st.lastClickTime >= TripleClickWindow
    requires t2 - t1 < TripleClickWindow && t3 - t2 < TripleClickWindow
    ensures var r1 := Click(st, b, sid, key, t1);
            var r2 := Click(r1.clicks, r1.board, sid, key, t2);
            var r3 := Click(r2.clicks, r2.board, sid, key, t3);
            && r3.clicks == ClickState(t2, 0, None)
            && (key !in b.holidays ==>
                  r3.board.holidays == b.holidays &&
                  forall s, k :: Lookup(r3.board.attendance, s, k) == if s == sid && k == key then None else Lookup(b.attendance, s, k))
            && (key in b.holidays ==> r3.board == Board(b.attendance, b.holidays - {key}))
  {
    var cell := CellId(sid, key);
    var o1 := Step(st, cell, t1);
    assert o1 == Outcome(ClickState(t1, 1, Some(cell)), ToggleCell);
    var o2 := Step(o1.next, cell, t2);
    assert o2 == Outcome(ClickState(t2, 2, Some(cell)), ToggleCell);
    var o3 := Step(o2.next, cell, t3);
    assert o3 == Outcome(ClickState(t2, 0, None), ClearCell);
  }

  /** Two quick clicks on a working day restore attended and leave no note. */
  lemma DoubleClickRestores(st: ClickState, b: Board, sid: SubjectId, key: DateKey, t1: int, t2: int)
    requires ValidClicks(st)
    requires st.lastClickedCell != Some(CellId(sid, key)) || t1 - st.lastClickTime >= TripleClickWindow
    requires t2 - t1 < TripleClickWindow && key !in b.holidays
    ensures var r1 := Click(st, b, sid, key, t1);
            var r2 := Click(r1.clicks, r1.board, sid, key, t2);
            && r2.clicks == ClickState(t2, 2, Some(CellId(sid, key)))
            && Lookup(r2.board.attendance, sid, key) == Some(Entry(Current(b.attendance, sid, key).attended, ""))
  {
    var cell := CellId(sid, key);
    var o1 := Step(st, cell, t1);
    assert o1 == Outcome(ClickState(t1, 1, Some(cell)), ToggleCell);
    Ledger.ToggleTwice(b.attendance, sid, key);
  }

  /** A third click that comes a full window or more after the second starts a new sequence:
      it toggles and the count is back to 1. */
  lemma SlowThirdClickRestarts(st: ClickState, b: Board, sid: SubjectId, key: DateKey, t1: int, t2: int, t3: int)
    requires ValidClicks(st)
    requires st.lastClickedCell != Some(CellId(sid, key)) || t1 - st.lastClickTime >= TripleClickWindow
    requires t2 - t1 < TripleClickWindow && t3 - t2 >= TripleClickWindow
    ensures var r1 := Click(st, b, sid, key, t1);
            var r2 := Click(r1.clicks, r1.board, sid, key, t2);
            var r3 := Click(r2.clicks, r2.board, sid, key, t3);
            && r3.clicks == ClickState(t3, 1, Some(CellId(sid, key)))
            && r3.board == Apply(r2.board, ToggleCell, sid, key)
  {
    var cell := CellId(sid, key);
    var o1 := Step(st, cell, t1);
    assert o1 == Outcome(ClickState(t1, 1, Some(cell)), ToggleCell);
  }

  /** The example clicks at 0, 100 and 300 ms from start-up clear the cell (or un-mark the
      holiday); with the third at 600 ms, 500 after the second, they toggle three times instead. */
  lemma ClickTimings(b: Board, sid: SubjectId, key: DateKey)
    ensures var r1 := Click(Initial, b, sid, key, 0);
            var r2 := Click(r1.clicks, r1.board, sid, key, 100);
            var fast := Click(r2.clicks, r2.board, sid, key, 300);
            var slow := Click(r2.clicks, r2.board, sid, key, 600);
            && fast.clicks == ClickState(100, 0, None)
            && (key !in b.holidays ==> Lookup(fast.board.attendance, sid, key) == None && fast.board.holidays == b.holidays)
            && (key in b.holidays ==> fast.board == Board(b.attendance, b.holidays - {key}))
            && slow.clicks == ClickState(600, 1, Some(CellId(sid, key)))
            && slow.board == Apply(r2.board, ToggleCell, sid, key)
  {
    TripleClickClears(Initial, b, sid, key, 0, 100, 300);
    SlowThirdClickRestarts(Initial, b, sid, key, 0, 100, 600);
  }

  /** The click detector's three variables, updated in place by handleCellClick. */
  class ClickTracker {
    var lastClickTime: int
    var clickCount: int
    var lastClickedCell: Option<string>

    function State(): ClickState
      reads this
    {
      ClickState(lastClickTime, clickCount, lastClickedCell)
    }

    ghost predicate Valid()
      reads this
    {
      ValidClicks(State())
    }

    constructor ()
      ensures State() == Initial && Valid()
    {
      lastClickTime := 0;
      clickCount := 0;
      lastClickedCell := None;
    }

    /** handleCellClick on a weekly grid cell, at time now. */
    method HandleCellClick(app: App.AppData, sid: SubjectId, key: DateKey, now: int)
      requires Valid() && app.Valid()
      modifies this, app
      ensures Valid() && app.Valid() && app.currentSemester == old(app.currentSemester)
      ensures var r := Click(old(State()), Board(old(app.SemesterData()).attendance, old(app.holidays)), sid, key, now);
              && State() == r.clicks
              && app.holidays == r.board.holidays
              && app.semesters == old(app.semesters)[app.currentSemester := old(app.SemesterData()).(attendance := r.board.attendance)]
    {
      ghost var before := State();
      var currentTime := now;
      var timeSinceLastClick := currentTime - lastClickTime;
      var cellIdentifier := CellId(sid, key);
      var isSameCell := lastClickedCell == Some(cellIdentifier);
      if isSameCell && timeSinceLastClick < TripleClickWindow {
        clickCount := clickCount + 1;
        if clickCount >= 3 {
          var holiday := app.IsHoliday(key);
          if holiday {
            app.ToggleHoliday(key);
          } else {
            app.ClearAttendance(sid, key);
          }
          clickCount := 0;
          lastClickedCell := None;
          return;
        }
      } else {
        clickCount := 1;
      }
      lastClickTime := currentTime;
      lastClickedCell := Some(cellIdentifier);
      if clickCount < 3 {
        var holiday := app.IsHoliday(key);
        if !holiday {
          app.ToggleAttendance(sid, key);
        }
      }
    }
  }

  // ---------------------------------------------------------------------
  // Right click and the monthly grid

  /** What the note editor is opened with: the subject, the date and the current note. */
  datatype NoteContext = NoteContext(subjectId: SubjectId, date: DateKey, currentNote: string)

  /** The note editor opens only on a working day, for a recorded absence of a subject that
      still exists, and shows that absence's note. */
  function NoteTarget(semester: Semester, holidays: set<DateKey>, sid: SubjectId, key: DateKey): (r: Option<NoteContext>)
    ensures r.Some? <==>
      key !in holidays && Lookup(semester.attendance, sid, key).Some? && !Lookup(semester.attendance, sid, key).value.attended &&
      Stats.FindSubject(semester.subjects, sid).Some?
    ensures r.Some? ==> r.value == NoteContext(sid, key, Lookup(semester.attendance, sid, key).value.note)
  {
    Stats.FindSubjectSpec(semester.subjects, sid);
    if key in holidays then None
    else match Lookup(semester.attendance, sid, key)
      case None => None
      case Some(attendance) =>
        if attendance.attended then None
        else match Stats.FindSubject(semester.subjects, sid)
          case None => None
          case Some(subject) => Some(NoteContext(subject.id, key, attendance.note))
  }

  /** Saving a note through the editor keeps the absence and the editor then shows the saved note. */
  lemma NoteEditRoundTrip(semester: Semester, holidays: set<DateKey>, sid: SubjectId, key: DateKey, note: string)
    requires NoteTarget(semester, holidays, sid, key).Some?
    ensures var ctx := NoteTarget(semester, holidays, sid, key).value;
            var saved := semester.(attendance := SetNote(semester.attendance, ctx.subjectId, ctx.date, note));
            && Lookup(saved.attendance, sid, key) == Some(Entry(false, note))
            && NoteTarget(saved, holidays, sid, key) == Some(NoteContext(sid, key, note))
  {
  }

  /** handleCellRightClick: with shift held it flips the date's holiday mark; otherwise it
      changes nothing and returns the note editor's context, if the editor opens. */
  method HandleCellRightClick(app: App.AppData, sid: SubjectId, key: DateKey, shiftKey: bool) returns (ctx: Option<NoteContext>)
    requires app.Valid()
    modifies app
    ensures app.Valid() && app.currentSemester == old(app.currentSemester) && app.semesters == old(app.semesters)
    ensures shiftKey ==> ctx.None? && app.holidays == Holidays.Toggle(old(app.holidays), key)
    ensures !shiftKey ==> app.holidays == old(app.holidays) && ctx == NoteTarget(app.SemesterData(), app.holidays, sid, key)
  {
    var semesterData := app.SemesterData();
    var holiday := app.IsHoliday(key);
    if shiftKey {
      app.ToggleHoliday(key);
      return None;
    }
    if holiday {
      return None;
    }
    var attendance := app.GetAttendance(sid, key);
    if attendance.None? || attendance.value.attended {
      return None;
    }
    var subject := Stats.FindSubject(semesterData.subjects, sid);
    Stats.FindSubjectSpec(semesterData.subjects, sid);
    if subject.None? {
      return None;
    }
    ctx := Some(NoteContext(subject.value.id, key, attendance.value.note));
  }

  /** handleMonthlyClick: toggle attendance unless the date is a holiday. */
  method HandleMonthlyClick(app: App.AppData, sid: SubjectId, key: DateKey)
    requires app.Valid()
    modifies app
    ensures app.Valid() && app.currentSemester == old(app.currentSemester) && app.holidays == old(app.holidays)
    ensures app.semesters == old(app.semesters)[app.currentSemester :=
      old(app.SemesterData()).(attendance := Apply(Board(old(app.SemesterData()).attendance, old(app.holidays)), ToggleCell, sid, key).attendance)]
  {
    var holiday := app.IsHoliday(key);
    if !holiday {
      app.ToggleAttendance(sid, key);
    }
  }
}
